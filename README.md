# Motion projects upload tracker — the project-status store

The tracker records, for each motion-design project, which stock platforms it
was uploaded to. For every category of template a platform accepts, it records
one of five statuses and the date of the last change. This Dafny project
models the store behind the window and proves properties of it. The Tk widgets
are not part of the model.

The model covers:

- **the store**: a map from project name to a `Project`, which holds the year,
  the month, and one category-to-`Entry(status, date)` map per attached
  platform;
- **the catalog**: the platforms in display order, each with its category codes
  and its header colour;
- **the operations that change the store**: add, edit, delete, click a cell,
  click a collapsed platform cell, Disable/Enable, CSV import, and adding a
  platform to the catalog;
- **what the matrix shows**: the search, platform and status filters; the
  grouping by year and month and the three sort orders; the collapsed-column
  rollup; and the column layout of header row and project rows;
- **the statistics panel** and **CSV export**.

Module layout (one file each):

- `results.dfy` — `Results`: `Option` and `Result`.
- `text.dfy` — `Text`: the string operations the code relies on.
  - Python's `str.strip`, with its whitespace set.
  - `str.lower` for ASCII, Latin-1 and basic Cyrillic.
  - Substring test and the ordering of `sorted` on strings.
  - `strptime(m, '%B')` as a lookup in the twelve English month names.
- `status.dfy` — `StatusAlgebra`: the five statuses in `status_colors` order,
  the successor used by a click, and the rollup cascade of a collapsed
  platform column. The cascade also gets an independent reference
  definition: a fold with a commutative, associative, idempotent `Combine`.
- `catalog.dfy` — `Catalogs`: the built-in catalog and the guarded addition of
  a platform.
- `store.dfy` — `ProjectStore`: every store operation as a function from the
  old store to the new one, or to the error that stops it. The lemmas state
  what each operation changes and what it leaves alone.
- `rows.dfy` — `CsvRows`: export and import as lists of records, with the
  round-trip lemmas.
- `stats.dfy` — `Statistics`: the per-status counts as a multiset over the
  store, and the counting loops.
- `view.dfy` — `MatrixView`: the filters, the grouping, the sorts, and the
  year/month/project tree the matrix draws.
- `layout.dfy` — `MatrixLayout`: columns of header and project rows, and the
  cells.
- `tracker.dfy` — `TrackerApp`: the `Tracker` class. It holds `projects` and
  `catalog` as fields, and each editing method updates them step by step. Each
  method is proved to leave exactly the state the matching `ProjectStore`,
  `Catalogs` or `CsvRows` function describes, or to change nothing and report
  the error.

Three behaviours of the code are worth stating outright:

- **Duplicate project names.** There is no duplicate-name check. Adding a
  project under an existing name replaces that project (`main.py:648`), and
  `ProjectStore.AddProject` does the same.
- **Platforms missing from the catalog.** The row builder walks the catalog
  platforms only (`main.py:447`). A project's platform that is not in the
  catalog is stored and exported but gets no column, so
  `MatrixLayout.CellAt` has columns for catalog platforms only.
- **Validation order when adding a platform.** Blank name, then duplicate,
  then no category ticked, then bad colour (`main.py:906-923`).

`CsvRows.ImportCanBreakComplete` shows that CSV import can leave a catalog
platform of a project without some of its catalog categories: a record for
one Adobe Stock category of a new project creates that category only
(`main.py:863-866`). Completeness is therefore proved for the editing
operations, not for import.

`ProjectStore.CyclePlatformFollowsFirstCategory` shows that a click on a
collapsed platform cell can write a status that does not follow the status
the cell shows. It advances the first category, as the code does. This is
modelled as written and is not treated as a defect.

## Model

| member | source | states |
|---|---|---|
| Text.TrimBothSlice | main.py:635 | trimming white space from both ends leaves a contiguous piece of the input |
| Text.TrimBothEnds | main.py:635 | a non-empty trimmed string neither starts nor ends with white space |
| Text.TrimBothEmpty | main.py:635 | trimming leaves nothing exactly when every character is white space |
| Text.Strip | main.py:635 | the stripped name is a contiguous piece of the input with only Python whitespace before and after it and none at either of its own ends, so it is the longest such piece; it is empty exactly when the input is all whitespace |
| Text.Lower | main.py:747 | lower-casing keeps the length, leaves no upper-case letter, replaces each upper-case letter by the lower-case letter whose upper-case partner it is, and keeps every other character (ASCII, Latin-1, basic Cyrillic) |
| Text.LowerIdempotent | main.py:747 | lower-casing twice is lower-casing once, so lower-casing the search text and the name does not depend on their case |
| Text.LexTransitive | main.py:438 | the string order used to sort project names is transitive |
| Text.LexTotal | main.py:438 | any two different names are ordered one way or the other, so the sorted order is determined |
| Text.LexIrreflexive | main.py:438 | no name sorts before itself |
| Text.Contains | main.py:747 | the substring test behind the search: the empty search text is in every name, nothing longer than a name is in it, and of the strings as long as the name only the name itself |
| Text.LexLess | main.py:438 | the string order used to sort project names puts a proper prefix before every string it starts |
| Text.LexLessFirstDifference | main.py:438 | one string sorts before another exactly when, at the first position where they differ, it has the smaller character or has ended |
| Text.MonthNumber | main.py:381 | a month string parses to v in 1..12 exactly when it equals the v-th English month name ignoring case; otherwise parsing fails |
| StatusAlgebra.Index | main.py:45-51 | each status has its position in the status colour table |
| StatusAlgebra.IndexInjective | main.py:45-51 | different statuses have different positions |
| StatusAlgebra.Next | main.py:781-784 | a click always changes the status |
| StatusAlgebra.NextFollowsOrder | main.py:781-784 | the next status is the entry at position (i + 1) mod 5 of the status order, where i is the current one's position |
| StatusAlgebra.NextNIndex | main.py:781-784 | k clicks move the position forward by k mod 5 |
| StatusAlgebra.CycleLengthIsFive | main.py:781-784 | five clicks restore a status; one to four clicks never do |
| StatusAlgebra.NextIsBijective | main.py:781-784 | every status is the successor of exactly one status |
| StatusAlgebra.Rollup | main.py:491-505 | Uploaded iff all Uploaded; Rejected iff some Rejected; Pending iff some Pending and none Rejected; Disabled iff non-empty and all Disabled; Not Uploaded in every other case |
| StatusAlgebra.CombineLaws | main.py:494-505 | the pairwise combination behind the cascade is commutative, associative and idempotent |
| StatusAlgebra.RollupSnoc | main.py:494-505 | the rollup of a list with one more status is the old rollup combined with that status |
| StatusAlgebra.RollupIsFold | main.py:494-505 | on a non-empty list the cascade equals the left fold of the pairwise combination |
| StatusAlgebra.RollupAppend | main.py:494-505 | the rollup of two joined non-empty lists is the combination of their rollups |
| StatusAlgebra.RollupUniform | main.py:494-505 | a non-empty list of one status rolls up to that status |
| Catalogs.DefaultValid | main.py:20-30 | the built-in catalog has unique platform names, and every platform has its categories and a colour |
| Catalogs.Filter | main.py:638-639 | the kept elements are exactly those of the list that are ticked, form a subsequence of the list (so keep its order), and have no duplicates if the list has none |
| Catalogs.AddPlatform | main.py:906-923 | errors in the order blank name, duplicate, no category, bad colour, each exactly when the earlier checks pass and its own fails; on success the platform is appended with the ticked codes in table order and its colour |
| Catalogs.ExtendKeepsValid | main.py:923-924 | appending a new platform keeps the catalog valid |
| Catalogs.AddPlatformKeepsValid | main.py:906-924 | a successful addition keeps the catalog valid, adds exactly one platform with a non-empty, duplicate-free list of ticked known codes, and keeps every other platform's categories and colour |
| ProjectStore.GetStatus | main.py:775-779 | the stored status when project, platform and category all exist, Not Uploaded otherwise; never fails |
| ProjectStore.FreshPlatforms | main.py:651-659 | fresh entry maps exactly for the selected platforms of the catalog list, each with exactly its catalog categories, all Not Uploaded and dated today |
| ProjectStore.FreshProjectCells | main.py:651-659 | a newly stored project has, for each attached platform, an entry exactly for each catalog category, Not Uploaded and dated today |
| ProjectStore.WithEntryEffect | main.py:785-788 | writing one cell sets that cell and changes nothing else |
| ProjectStore.OnlyCellChangedTransitive | main.py:785-788 | repeated writes to one cell still change only that cell |
| ProjectStore.CycleStatus | main.py:781-788 | missing project or platform fails, each exactly when it is missing; otherwise the cell holds the successor of its old status dated today, and no other cell, year, month or key changes |
| ProjectStore.CycleTimes | main.py:781-788 | repeated clicks on a cell fail exactly as the first click does when the project or its platform map is missing |
| ProjectStore.CycleStepEffect | main.py:781-788 | one more click after changes confined to a cell keeps the changes confined to it and advances it one step |
| ProjectStore.CycleTimesEffect | main.py:781-788 | k clicks on one cell advance it k steps and change nothing else |
| ProjectStore.CycleFiveTimesRestores | main.py:781-788 | five clicks on one cell restore its status and change nothing else |
| ProjectStore.SetStatus | main.py:805-809 | same failures as a click; otherwise the cell holds the given status dated today, and nothing else changes |
| ProjectStore.PlatformStatuses | main.py:491-493 | a status is among those the collapsed cell rolls up exactly when some catalog category of the platform reads it, with the Not Uploaded fallback |
| ProjectStore.PlatformRollup | main.py:491-505 | the collapsed cell shows Uploaded exactly when every catalog category reads Uploaded, Rejected exactly when some reads Rejected, Pending exactly when some reads Pending and none Rejected, and Disabled exactly when there are categories and all read Disabled |
| ProjectStore.CyclePlatformStatus | main.py:617-628 | errors in the order platform unknown to the catalog, platform without categories, project missing, platform not attached, each exactly when it occurs |
| ProjectStore.PlatformClickCells | main.py:617-628 | after a platform click every catalog category of it holds the successor of the first category's old status, and no other cell, year, month or key changes |
| ProjectStore.CyclePlatformStatusEffect | main.py:617-628 | after a platform click every catalog category of it holds the successor of the first category's old status, the collapsed cell rolls up to that status, and nothing else changes |
| ProjectStore.OverwriteCategories | main.py:624-628 | writing one entry into listed categories sets exactly those categories to it and keeps every other category |
| ProjectStore.UniformPlatformRollup | main.py:491-505 | when every catalog category of a platform holds the same entry, the collapsed cell shows that entry's status |
| ProjectStore.CyclePlatformFollowsFirstCategory | main.py:619-622 | with categories Uploaded and Pending the cell shows Pending, but the click writes Not Uploaded, not Rejected |
| ProjectStore.AddProject | main.py:634-646 | blank stripped name fails exactly when blank; no ticked catalog platform fails exactly when none is ticked |
| ProjectStore.AddProjectEffect | main.py:648-659 | a successful add gives the name the given year and month and exactly the ticked catalog platforms, every category Not Uploaded dated today; an existing project of that name is replaced, and other projects are unchanged |
| ProjectStore.EditProject | main.py:666-670 | unknown stripped name fails exactly when unknown; success keeps the set of project names |
| ProjectStore.EditPlatforms | main.py:711-723 | ticked attached catalog platforms keep their entries, newly ticked ones are fresh, unticked catalog platforms are dropped, and platforms outside the catalog are kept |
| ProjectStore.EditProjectEffect | main.py:707-723 | saving sets the year and month; ticked attached platforms keep their entries, newly ticked ones are fresh, unticked catalog platforms are removed, platforms outside the catalog are kept, and other projects are unchanged |
| ProjectStore.EditDetachThenReattach | main.py:711-723 | unticking a platform and saving, then ticking it again and saving, leaves it with fresh Not Uploaded entries |
| ProjectStore.DeleteProject | main.py:733-744 | unknown stripped name fails exactly when unknown; confirmed deletion removes exactly that project; declining changes nothing |
| ProjectStore.CellChangeKeepsComplete | main.py:785-788 | changing one existing cell keeps every attached catalog platform complete |
| ProjectStore.PlatformClickKeepsComplete | main.py:617-628 | a successful platform click leaves the store complete |
| ProjectStore.StatusChangesKeepComplete | main.py:617-628 | clicks, platform clicks and Disable/Enable keep the store complete |
| ProjectStore.PutFreshKeepsComplete | main.py:648-659 | storing a project made of fresh catalog platforms keeps the store complete |
| ProjectStore.AddKeepsComplete | main.py:648-659 | a successful add leaves the store complete |
| ProjectStore.EditKeepsComplete | main.py:707-723 | a successful edit leaves the store complete |
| ProjectStore.ProjectChangesKeepComplete | main.py:648-738 | add, edit and confirmed delete keep the store complete |
| CsvRows.ImportRow | main.py:853-866 | a missing project is created with the record's year and month and only the record's platform, and an existing one keeps its own year, month and platforms plus the record's; the cell gets the record's status and date; nothing else changes |
| CsvRows.ImportRows | main.py:851-866 | after an import the projects are exactly those before plus those the records name |
| CsvRows.ImportCanBreakComplete | main.py:863-866 | a record for one category of a new project leaves that catalog platform without its other catalog categories |
| CsvRows.ImportAgreeingRow | main.py:827-866 | importing a record export wrote changes nothing |
| CsvRows.ImportAgreeingRowsIsIdentity | main.py:827-866 | importing the exported records back into the same store leaves it unchanged |
| CsvRows.ImportKeepsYearMonth | main.py:860-861 | import never drops a project and never changes an existing project's year or month |
| CsvRows.ImportLastWriteWins | main.py:853-866 | a cell ends with the values of the last record that names it |
| CsvRows.ImportInventsNothing | main.py:853-866 | every cell after import existed before or is named by a record |
| CsvRows.ImportCoversRows | main.py:853-866 | every cell named by a record exists after import |
| CsvRows.ImportAgreeingKeepsSubStore | main.py:853-866 | importing records that agree with a store into part of it yields part of that store |
| CsvRows.ExportPlatform | main.py:832-842 | one record per category of that platform, each agreeing with the store, none twice |
| CsvRows.ExportProject | main.py:827-842 | one record per cell of that project, each agreeing with the store, none twice |
| CsvRows.ExportRows | main.py:827-842 | a record for every stored cell, each carrying the project's year and month and the cell's status and date, and no other record, none twice |
| CsvRows.ExportImportRoundTrip | main.py:827-866 | importing the exported records into an empty store rebuilds every cell, and every project comes back with its year and month |
| Statistics.DeleteTally | main.py:273-282 | deleting a project removes exactly its cells from the counts |
| Statistics.CellChangeTally | main.py:273-282 | changing one cell's status moves one count from the old status to the new one |
| Statistics.TallyCategoriesRemove | main.py:280-282 | the counts of a platform's categories are those of any one category plus those of the others |
| Statistics.Bump | main.py:281-282 | one more cell of a status raises that status's counter by one and leaves the others |
| Statistics.CountCategories | main.py:280-282 | adds one count per category entry of one platform to the counters |
| Statistics.CountProject | main.py:276-282 | adds the counts of every platform of one project to the counters |
| Statistics.CountStatuses | main.py:273-282 | every status has a counter equal to the number of cells holding it |
| MatrixView.ShouldShowProject | main.py:746-773 | true exactly when the lower-cased search text occurs in the lower-cased name, the platform filter is All or the project has that platform, and the status filter is All or some category of an admitted platform has that status |
| MatrixView.InsertEffect | main.py:329-331 | adding a name to a year and month group adds exactly that membership and creates no empty group |
| MatrixView.GroupByYearMonth | main.py:326-331 | every project with a non-zero year and a non-empty month is in the group of its year and month; groups hold nothing else, and none is empty |
| MatrixView.SortDescendingBy | main.py:335 | every element once, with non-increasing keys |
| MatrixView.SortNames | main.py:438 | every name once, in strictly ascending string order |
| MatrixView.MonthKey | main.py:381 | the parsed month number, 0 exactly when parsing fails |
| MatrixView.SortMonths | main.py:381 | fails exactly when some month does not parse; otherwise every month once, latest first |
| MatrixView.VisibleProjects | main.py:438-439 | exactly the names that pass the filters, still ascending |
| MatrixView.BuildMonths | main.py:381-429 | one section per month in the given order, each listing exactly the filtered projects of that year and month, ascending |
| MatrixView.BuildYear | main.py:340-383 | fails exactly when a month of the year does not parse; otherwise the year's month sections are distinct, latest first, and hold exactly that year's dated projects, filtered and ascending |
| MatrixView.BuildYears | main.py:335-336 | draws the years in the given order, and fails exactly when one of them has an unparseable month |
| MatrixView.YearsCoverDated | main.py:326-336 | drawing every grouped year once shows every dated project's year and month, and shows no year without a dated project |
| MatrixView.UpdateMatrix | main.py:322-383 | fails exactly when a dated project's month does not parse; otherwise the tree has strictly descending years, each year and month holds a dated project, each dated project's year and month appear, and rows are exactly the filtered projects, ascending |
| MatrixLayout.StatusColor | main.py:45-51 | every status colour is a `#RRGGBB` hexadecimal colour that reads back as that status |
| MatrixLayout.Span | main.py:550 | a platform outside the catalog takes no column; one with categories takes at least one column and at most one per category |
| MatrixLayout.BeforeMonotone | main.py:455-457 | the first column of a later platform is never left of an earlier one's |
| MatrixLayout.CollapseNarrows | main.py:455-457 | collapsing more platforms never widens the section, when every catalog platform lists a category |
| MatrixLayout.StatusColorInjective | main.py:45-51 | different statuses are painted in different colours |
| MatrixLayout.LocateFrom | main.py:543-615 | a column offset from a platform's first column falls in a later or the same platform, inside its span |
| MatrixLayout.Locate | main.py:543-615 | every column lies in exactly the span of one platform slot, whose first column plus slot index is that column |
| MatrixLayout.ColumnUnique | main.py:550-615 | two platform slots never share a column |
| MatrixLayout.SlotInWidth | main.py:550-615 | every slot of a platform lies inside the section's width |
| MatrixLayout.LocateAt | main.py:550-615 | slot i of the k-th platform is the column after the spans of the platforms before it, and it lies inside the section's width |
| MatrixLayout.HeaderRow | main.py:543-615 | the header row has one label per column: the category code under an expanded platform, blank under a collapsed one |
| MatrixLayout.Shade | main.py:463-468 | never a gap; an unpainted cell exactly when the status filter names another status; otherwise painted in a colour that reads back as the status |
| MatrixLayout.CellAt | main.py:442-528 | a gap exactly where the project lacks the platform or the platform filter hides it; otherwise unpainted exactly when the status filter names another status than the cell's, and else painted in a colour that reads back as the cell's status (the rollup of a collapsed platform, the category's status otherwise) |
| MatrixLayout.RowCells | main.py:442-528 | a project row has exactly as many cells as the header row. Each cell shows what its column's header stands for: nothing for a missing or filtered-out platform, the rollup for a collapsed one, and that category's status otherwise |
| TrackerApp.AttachFresh | main.py:651-658 | attaching the selected platforms one by one gives fresh entry maps for exactly those platforms |
| TrackerApp.DiffPlatforms | main.py:711-723 | walking the catalog platforms gives exactly the edited platform map |
| TrackerApp.SetAll | main.py:624-628 | writing one entry into each listed category gives the old map overridden by those categories |
| TrackerApp.UpsertRow | main.py:853-866 | the three import steps for one record give exactly the imported store |
| TrackerApp.Tracker.constructor | main.py:20-69 | starts with the built-in catalog and the stored projects |
| TrackerApp.Tracker.AddProject | main.py:634-664 | the new store is exactly the add outcome, or the error is reported and nothing changes; the catalog stays, and completeness is kept |
| TrackerApp.Tracker.EditProject | main.py:666-728 | the new store is exactly the edit outcome, or the error is reported and nothing changes; completeness is kept |
| TrackerApp.Tracker.DeleteProject | main.py:733-744 | the new store is exactly the delete outcome, or the error is reported; completeness is kept |
| TrackerApp.Tracker.CycleStatus | main.py:781-792 | the new store is exactly the click outcome, or the error is reported and nothing changes; completeness is kept |
| TrackerApp.Tracker.SetStatus | main.py:805-812 | the new store is exactly the set outcome, or the error is reported and nothing changes; completeness is kept |
| TrackerApp.Tracker.CyclePlatformStatus | main.py:617-632 | the category-by-category loop leaves exactly the platform-click outcome, or the error is reported and nothing changes; completeness is kept |
| TrackerApp.Tracker.ImportFromCsv | main.py:851-866 | the record-by-record loop leaves exactly the import fold of the records over the old store |
| TrackerApp.Tracker.ExportToCsv | main.py:817-842 | a record for every cell and no other, none twice; importing them back changes nothing, and importing them into an empty store rebuilds every cell |
| TrackerApp.Tracker.SaveNewPlatform | main.py:906-933 | the new catalog is exactly the platform-addition outcome, or the error is reported and nothing changes; projects are untouched and the catalog stays valid |
| TrackerApp.Tracker.Statistics | main.py:273-286 | each status's counter equals the number of cells holding it |
| TrackerApp.Tracker.Matrix | main.py:322-383 | the drawn tree is exactly what UpdateMatrix promises for the current store and filters |

## Left out

- Tk widgets: window layout, scrolling, tooltips, the legend, the context menu and the statistics labels. The status a cell shows and the colour it is painted are modelled; widget creation is not.
- JSON persistence of projects, catalog and settings: the constructor takes the stored projects as a parameter and uses the built-in catalog. Loading a saved catalog and the fallback on read errors are not modelled.
- CSV text and file dialogs: records are modelled as `Row` values. The `csv` module's quoting and encoding are not modelled.
- `int()` on the Year column and status strings outside the five known ones (import stores them verbatim, and statistics then raises): `Status` is a datatype, so a record always carries a known status and an integer year.
- `datetime.now()`: today's date is a parameter `today`.
- `root.winfo_rgb` colour check: a parameter `colorValid` says whether Tk accepts the colour.
- The delete confirmation dialog: a parameter `confirmed`.
- Year, month and platform collapse state for whole sections: a collapsed year skips drawing its months, and only then are its month names never parsed; an expanded year sorts, and so parses, all its month names (`main.py:381`) before any month's own collapse state is read (`main.py:421`), and a collapsed month only skips drawing its rows. `MatrixView.UpdateMatrix` models every year and month expanded. Collapsed platforms are modelled in `MatrixLayout` through the set `collapsed`.
- Text.Lower: models lower-casing for ASCII, Latin-1 and basic Cyrillic only; other scripts and multi-character case mappings are left as they are.
- Text.MonthNumber: models the C-locale month names only, compared through `Text.Lower`; locale-dependent names are not modelled, and neither are the extra case-insensitive matches of Python's regular expressions, under which dotless ı (U+0131) and dotted İ (U+0130) match `i` and long ſ (U+017F) matches `s`, so that "Aprıl" parses as 4 and "Auguſt" as 8 while `Text.MonthNumber` rejects them.
- Dictionary insertion order: the model keeps the store as maps. `MatrixView.SortDescendingBy` may order elements with equal keys differently from Python's stable sort. Export writes the records in some order of the keys; only the record set and the absence of repeats are stated.
- A platform filter value of "All" and a platform literally named "All" cannot be told apart in the code; the model's filter is a datatype, so this ambiguity is not modelled.
- Project records whose platform name is `year` or `month` collide with the reserved keys in the code; the model keeps year and month as separate fields.
