# PFAC 2025 training-hours ledger — Dafny model

PFAC 2025 keeps one table of completed training courses, the "Cursos
Realizados" sheet, with one row per course. Each row holds the staff member's
name, email, course name and hours. This project models the ledger logic of
`pfac_pywebio_final.py`:

- `calcular_status` groups rows by exact name, sums each member's hours and
  labels a total of 40 or more "Aprovado", anything less "Reprovado".
- The status filter of the main screen picks "Todos", "Aprovado" or
  "Reprovado".
- The staff menu has five mutations:
  - insert a course
  - edit a course (first matching row only)
  - delete a course (every matching row)
  - edit a staff member (rename, then set the email)
  - delete a staff member
- `gerar_pdf_compacto` builds a per-staff summary and lays it out on pages.

Modules, one per file:

- `Text` (`text.dfy`): Python's `<` on strings, `sorted`, and `", ".join`.
- `Rows` (`rows.dfy`): the row datatype and the pandas selections the code uses:
  - boolean masks
  - `iloc[0]` / `index[0]`
  - `groupby(...).sum()`
  - `unique()`
- `Aggregation` (`aggregation.dfy`): `calcular_status` and the status filter.
- `Mutations` (`mutations.dfy`): each menu mutation as a function on the table, with its lemmas.
- `Store` (`store.dfy`): the class `Ledger`. It holds the table between `carregar_dados` and `salvar_dados`, and has one method per menu branch.
- `Report` (`report.dfy`): the summary loop and the page-layout loop, both as methods, and the closed form of the page layout.

Modelling choices:

- pandas `groupby` returns its keys sorted, so `CalcStatus` lists names in
  ascending Python string order.
- `unique()` keeps the order of first appearance, so the report lists staff
  in the order their first row appears.
- A page is modelled as the sequence of `(x, y, font size, text)` placements
  made on it.
- Hours are unbounded integers.

Behaviour of the code the model keeps:

- Insert does not reject negative hours. The code has no check, so the model
  accepts any integer.
- Editing a staff member who has no rows is not a no-op. Line 128 reads the
  current email with `iloc[0]` before anything is written. On a missing name
  that fails, and the model returns `Rejected(UnknownStaff)`.
- Pages after the first do not repeat the header. They carry data rows only,
  as the layout loop writes them.
- An empty report is not a "no data" result. It is a one-page document with
  the title and the header.

## Model

| member | source | states |
|---|---|---|
| Text.Sort | pfac_pywebio_final.py:169 | `sorted` returns an ascending arrangement of exactly the input's elements (same multiset) |
| Text.AscendingUnique | pfac_pywebio_final.py:169 | two ascending lists with the same elements are equal, so the modelled sort gives the same result as Python's |
| Text.SortDistinct | pfac_pywebio_final.py:169 | sorting distinct names gives a strictly ascending list with the same members |
| Text.Below | pfac_pywebio_final.py:169 | Python's string `<`: a string is never below itself, and a proper prefix is below the longer string |
| Text.BelowTotal | pfac_pywebio_final.py:169 | Python string `<` orders any two different strings one way or the other |
| Text.Join | pfac_pywebio_final.py:38 | `", ".join` of no parts is empty; otherwise its length is the parts' lengths plus one separator between each pair |
| Text.JoinLayout | pfac_pywebio_final.py:38 | part k of the join sits, unchanged, right after the earlier parts and their separators, with ", " just before it |
| Rows.Keep | pfac_pywebio_final.py:144 | a boolean-mask selection keeps only rows of the table that satisfy the mask, and never grows |
| Rows.KeepContains | pfac_pywebio_final.py:144 | every row of the table that satisfies the mask is selected |
| Rows.KeepAppend | pfac_pywebio_final.py:123 | a selection splits at any split of the table, so kept rows keep their relative order |
| Rows.KeepMultiplicity | pfac_pywebio_final.py:123 | a row survives a selection exactly as often as it occurs if it satisfies the mask, and not at all otherwise |
| Rows.KeepEverything | pfac_pywebio_final.py:192 | a selection every row passes returns the table unchanged (used by `Aggregation.FilteredRowsTodos`) |
| Rows.RowsOfMembers | pfac_pywebio_final.py:32 | a member's selection holds exactly the table's rows carrying that name |
| Rows.SumHoursBounds | pfac_pywebio_final.py:34 | with no negative hours the sum is non-negative and at least every single row's hours |
| Rows.SumHoursAppend | pfac_pywebio_final.py:34 | the sum of a selection splits over any split of it |
| Rows.CourseNames | pfac_pywebio_final.py:33 | the course list has one entry per selected row, each that row's course, in row order |
| Rows.FirstIndex | pfac_pywebio_final.py:100 | `index[0]` finds the first matching row in store order (no earlier row matches), or nothing when no row matches |
| Rows.Hours | pfac_pywebio_final.py:23 | the group total of a name that no row carries is 0 |
| Rows.HoursOfOwnRows | pfac_pywebio_final.py:32-34 | a name's `groupby` total equals the sum of hours over exactly the rows carrying that name |
| Rows.HoursAppend | pfac_pywebio_final.py:87 | totals distribute over concatenating two tables |
| Rows.HoursUpdate | pfac_pywebio_final.py:107-108 | overwriting one row changes each total by the new row's contribution minus the old one's |
| Rows.Names | pfac_pywebio_final.py:31 | `unique()` lists each name once, exactly the names that occur in the table |
| Rows.NamesInFirstAppearanceOrder | pfac_pywebio_final.py:31 | `unique()` lists names in the order of their first rows |
| Rows.FirstRowOfExtended | pfac_pywebio_final.py:85-87 | appending rows does not move the first row of a name already present |
| Aggregation.StatusFor | pfac_pywebio_final.py:24 | a total is Aprovado iff it is at least 40 and Reprovado iff it is below 40 |
| Aggregation.CalcStatus | pfac_pywebio_final.py:22-25 | one line per name that occurs and only such names, each line's total is its name's summed hours, status Aprovado iff total ≥ 40, names strictly ascending |
| Aggregation.StatusThreshold | pfac_pywebio_final.py:23-24 | every name that occurs has exactly one line, and it reads Aprovado iff that name's rows sum to 40 or more (40 itself passes) |
| Aggregation.LineOfEveryName | pfac_pywebio_final.py:22-25 | the table holds, for every name that occurs, the line with that name's total and status |
| Aggregation.NamesAreCaseSensitive | pfac_pywebio_final.py:23 | "Ana" and "ana" are two members with 20 hours each, both Reprovado, not one member with 40 |
| Aggregation.PassingNames | pfac_pywebio_final.py:166-167 | the filter keeps a line's name iff the line's status passes it ("Todos" passes everything) |
| Aggregation.PassingNamesDistinct | pfac_pywebio_final.py:166-169 | filtering lines with distinct names gives distinct names |
| Aggregation.Selected | pfac_pywebio_final.py:164-169 | the selectable names are strictly ascending, and a name is listed iff it occurs and its status passes the filter |
| Aggregation.RowsNamedMembers | pfac_pywebio_final.py:192 | the membership selection keeps exactly the rows whose name is listed |
| Aggregation.FilteredRows | pfac_pywebio_final.py:192 | the report's table holds exactly the rows of members whose whole-table status passes the filter |
| Aggregation.FilteredRowsTodos | pfac_pywebio_final.py:164-169 | with "Todos" the report's table is the whole table, unchanged and in order |
| Aggregation.RowsOfRowsNamed | pfac_pywebio_final.py:192 | a listed member's own rows are the same, in the same order, in the selection as in the table |
| Aggregation.HoursOfRowsNamed | pfac_pywebio_final.py:192 | selecting the rows of a list of names keeps the totals of listed names and zeroes the rest |
| Aggregation.FilteredRowsCorrect | pfac_pywebio_final.py:192 | the filtered table keeps every row of a passing member, as often as it occurred, and no other row; kept members keep their whole-table total |
| Mutations.InsertCourse | pfac_pywebio_final.py:85-87 | fails with UnknownStaff iff no row carries the name; otherwise the table gains exactly one row at the end with the email of the member's first row, and the course and hours given |
| Mutations.InsertCourseTotals | pfac_pywebio_final.py:85-87 | an insert raises only the inserting member's total, by exactly the new hours |
| Mutations.InsertCourseKeepsEmailsConsistent | pfac_pywebio_final.py:85-86 | if all rows of each name share one email, they still do after an insert |
| Mutations.EditCourse | pfac_pywebio_final.py:100-108 | fails with CourseNotFound iff no row has this name and course; otherwise only the first such row in store order changes, to the new course and hours |
| Mutations.EditCourseTotals | pfac_pywebio_final.py:107-108 | a course edit moves only the member's total, by the new hours minus the replaced row's hours |
| Mutations.EditCourseKeepsEmailsConsistent | pfac_pywebio_final.py:107-108 | a course edit keeps one email per name |
| Mutations.DeleteCourse | pfac_pywebio_final.py:123 | every remaining row was in the table and is not a row of this member with this course |
| Mutations.DeleteCourseCorrect | pfac_pywebio_final.py:123 | every copy of a matching row is removed and every other row is kept as often as it occurred |
| Mutations.EditFirstDeleteAll | pfac_pywebio_final.py:100-123 | on two rows of one course, edit changes only the first and delete removes both |
| Mutations.Rename | pfac_pywebio_final.py:135 | same length; every row of the old name takes the new name and nothing else changes; other rows are unchanged |
| Mutations.SetEmail | pfac_pywebio_final.py:136 | same length; every row of the given name takes the new email and nothing else changes; other rows are unchanged |
| Mutations.EditStaff | pfac_pywebio_final.py:135-136 | rows of the old name take the new name and email, rows already named the new name take the new email, all other rows are unchanged |
| Mutations.EditStaffTotals | pfac_pywebio_final.py:135-136 | after a rename no row carries the old name, every row of the new name has the new email, the new name's total is the old and new totals together, others are unchanged |
| Mutations.EditStaffEmailOnly | pfac_pywebio_final.py:135-136 | a staff edit that keeps the name changes no name and no total, only that member's email |
| Mutations.EditStaffMergesLines | pfac_pywebio_final.py:135-136 | after renaming an existing member, `calcular_status` has no line under the old name and a line under the new name holding both totals |
| Mutations.EditStaffKeepsEmailsConsistent | pfac_pywebio_final.py:135-136 | a staff edit keeps one email per name |
| Mutations.DeleteStaff | pfac_pywebio_final.py:144 | no row of the deleted member remains |
| Mutations.DeleteStaffCorrect | pfac_pywebio_final.py:144 | every row of every other member is kept as often as it occurred, and their totals are unchanged |
| Mutations.DeleteStaffHours | pfac_pywebio_final.py:144 | deleting a member leaves every other member's total unchanged |
| Mutations.DeletionsKeepEmailsConsistent | pfac_pywebio_final.py:123-144 | both deletions keep one email per name |
| Store.Ledger.constructor | pfac_pywebio_final.py:14-17 | the ledger holds the stored table |
| Store.Ledger.InsertCourse | pfac_pywebio_final.py:85-88 | the table becomes the insert's result and is saved, or is left as it was with UnknownStaff; one email per name is preserved |
| Store.Ledger.EditCourse | pfac_pywebio_final.py:100-109 | the two cell writes give the edit's result and it is saved, or the table is unchanged with CourseNotFound; one email per name is preserved |
| Store.Ledger.DeleteCourse | pfac_pywebio_final.py:123-124 | the table becomes the course deletion's result; one email per name is preserved |
| Store.Ledger.EditStaff | pfac_pywebio_final.py:128-137 | fails with UnknownStaff, unchanged, when the old name has no rows; otherwise the two column writes give the staff edit's result; one email per name is preserved |
| Store.Ledger.DeleteStaff | pfac_pywebio_final.py:144-145 | the table becomes the staff deletion's result; one email per name is preserved |
| Report.Summarize | pfac_pywebio_final.py:31-41 | one entry per distinct name in first-appearance order; courses are that member's course names joined by ", " in row order; total and status equal the `calcular_status` line of that name |
| Report.AnaScenario | pfac_pywebio_final.py:31-41 | Ana with 20 h of Ética and 25 h of LGPD is one entry "Ética, LGPD" and one Aprovado line of 45 h |
| Report.AnaRows | pfac_pywebio_final.py:31-34 | in that case the distinct names are ["Ana"], Ana's selection is both rows, the joined courses are "Ética, LGPD" and the total is 45 |
| Report.Advance | pfac_pywebio_final.py:59-62 | the next row is 15 lower on the same page, or, once the cursor passes 780, at 50 at the top of a new page after a full page |
| Report.RowsOfPage | pfac_pywebio_final.py:54-62 | page p holds exactly rows FirstRowOn(p) to FirstRowOn(p+1) - 1: 46 rows on the first page, 49 on each later one |
| Report.RowsWithinPage | pfac_pywebio_final.py:54-62 | every data row is drawn between y = 50 and y = 780, and first-page rows are below the header |
| Report.EarlierRow | pfac_pywebio_final.py:54-62 | an earlier row is on an earlier page, or above and before on the same page |
| Report.PutKeepsRows | pfac_pywebio_final.py:55-58 | writing on the current page leaves every row already drawn in place |
| Report.RowStep | pfac_pywebio_final.py:54-62 | drawing one row and moving the cursor keeps the whole layout invariant, over a page break too |
| Report.LayOut | pfac_pywebio_final.py:43-62 | `LaidOut`: the first page opens with the title (size 14, y 50) and four headers (size 11, y 80); row k is drawn on page PageOf(k) at height RowY(k) in the four columns; left pages are full; the last page is empty iff the rows end on a page boundary; later pages hold size-10 data rows only |
| Report.GenerateReport | pfac_pywebio_final.py:27-67 | the summary of the rows (one entry per distinct name in first-appearance order, with its joined courses and its `calcular_status` total and status), laid out as `LayOut` promises: header block, every row in its place, page lengths, no header on later pages |
| Report.ReportForFilter | pfac_pywebio_final.py:192-193 | every reported member passes the filter, with the total, status and joined courses the whole table gives them; every passing member is reported exactly once, in first-appearance order of the filtered table; the pages are laid out as `LayOut` promises |
| Report.FilteredMember | pfac_pywebio_final.py:192 | a member with rows in the filtered table passes the filter and has the same rows and total there as in the whole table |
| Report.PassingMemberReported | pfac_pywebio_final.py:192 | every member whose status passes the filter has rows in the filtered table |

## Left out

- Excel storage (`carregar_dados`, `salvar_dados`, lines 14-20): the file and
  the sheet are I/O. The ledger is constructed from the stored rows, and the
  table the methods leave is what would be saved. A missing file is just an
  empty table.
- The PyWebIO screens are presentation and are not modelled. This covers the menu loop, the forms, the course picker, the "Nenhum curso encontrado"
  and "Nenhum servidor encontrado" notices, the confirmation prompts, toasts
  and the per-member display at lines 176-184. A cancelled form or prompt
  leaves the table unchanged, which is simply not calling the method.
- Server startup and `app()` control flow: not ledger logic.
- PyMuPDF: fonts, text measurement, clipping of long text and the saved bytes
  are not modelled. A page is the list of placements made on it.
- `str()` of totals in the report: a total is placed as an `Amount` (integer),
  not as its decimal text.
- Hours are integers: floating-point hours from a spreadsheet, and NaN
  names or hours (which pandas `groupby` and `sum` skip), are not modelled.
- `.unique()` after the filter (line 169): the names of `calcular_status`
  lines are already distinct, so `Aggregation.Selected` only sorts them
  (`Aggregation.PassingNamesDistinct` shows nothing is lost).
- Row positions: the model addresses rows by position. The code addresses them by
  pandas index labels, which equal positions here because each menu action
  reloads the table from the file before it acts.
- Concurrent writers: the store is single-writer, and a second writer's last save
  wins. This is not modelled.
- Mutations.EditStaffTotals: stated for a rename to a different name; a
  staff edit that keeps the name is covered by `Mutations.EditStaffEmailOnly`.
