/** `gerar_pdf_compacto`: the per-staff summary and the page layout of the
    compact report. A page is the list of texts placed on it, in the order they
    are placed; the document's bytes are not modelled. */
module Report {
  import opened Text
  import opened Rows
  import opened Aggregation

  /** One entry of `servidores_info`. */
  datatype Entry = Entry(name: string, courses: string, total: int, status: Status)

  /** The summary loop: one entry per distinct name, in order of first appearance,
      with that member's course names joined by ", " in row order (repeats kept),
      and the total and status of the line `calcular_status` gives the same name
      (`Aggregation.LineOfEveryName`). */
  method Summarize(rows: seq<Row>) returns (info: seq<Entry>)
    ensures |info| == |Names(rows)|
    ensures forall i :: 0 <= i < |info| ==> info[i].name == Names(rows)[i]
    ensures forall i :: 0 <= i < |info| ==> info[i].courses == Join(CourseNames(RowsOf(rows, info[i].name)))
    ensures forall i :: 0 <= i < |info| ==>
      Line(rows, info[i].name) == StaffTotal(info[i].name, info[i].total, info[i].status)
  {
    var names := Names(rows);
    info := [];
    for k := 0 to |names|
      invariant |info| == k
      invariant forall i :: 0 <= i < k ==> info[i].name == names[i]
      invariant forall i :: 0 <= i < k ==> info[i].courses == Join(CourseNames(RowsOf(rows, names[i])))
      invariant forall i :: 0 <= i < k ==> Line(rows, names[i]) == StaffTotal(names[i], info[i].total, info[i].status)
    {
      var name := names[k];
      var own := RowsOf(rows, name);
      var total := SumHours(own);
      var status := if total >= 40 then Aprovado else Reprovado;
      HoursOfOwnRows(rows, name);
      info := info + [Entry(name, Join(CourseNames(own)), total, status)];
    }
  }

  /** A worked case: Ana, with 20 hours of Ética and 25 of
      LGPD, is Aprovado with 45 hours, and the summary lists both courses. */
  lemma AnaScenario()
    ensures var rows := [Row("Ana", "a@x", "Ética", 20), Row("Ana", "a@x", "LGPD", 25)];
      Names(rows) == ["Ana"] &&
      Join(CourseNames(RowsOf(rows, "Ana"))) == "Ética, LGPD" &&
      CalcStatus(rows) == [StaffTotal("Ana", 45, Aprovado)]
  {
    var rows := [Row("Ana", "a@x", "Ética", 20), Row("Ana", "a@x", "LGPD", 25)];
    AnaRows(rows);
    assert Hours(rows, "Ana") == 45;
    assert Line(rows, "Ana") == StaffTotal("Ana", 45, Aprovado);
    assert Sort(Names(rows)) == ["Ana"];
    assert CalcStatus(rows) == [Line(rows, "Ana")];
  }

  /** The selections of the worked case, one step each. */
  lemma AnaRows(rows: seq<Row>)
    requires rows == [Row("Ana", "a@x", "Ética", 20), Row("Ana", "a@x", "LGPD", 25)]
    ensures Names(rows) == ["Ana"] && RowsOf(rows, "Ana") == rows
    ensures Join(CourseNames(rows)) == "Ética, LGPD"
    ensures Hours(rows, "Ana") == 45
  {
    var first := rows[..1];
    assert first == [rows[0]];
    assert first[..0] == [];
    assert Names(first) == ["Ana"];
    assert RowsOf(first, "Ana") == first;
    assert Hours(first, "Ana") == 20;
    assert CourseNames(first) == ["Ética"];
    assert CourseNames(rows) == ["Ética", "LGPD"];
  }

  /** What a placed text shows: a string, or a total (its decimal rendering is not
      modelled). */
  datatype Cell = Label(s: string) | Amount(n: int)

  /** One text placed on a page: its position, font size and content. */
  datatype Placement = Placement(x: int, y: int, size: int, cell: Cell)

  type Page = seq<Placement>

  const Title: string := "Relatório Compacto - PFAC 2025"
  const Headers: seq<string> := ["Servidor", "Cursos", "Total (h)", "Status"]
  /** The fixed x position of each column; nothing is measured or wrapped. */
  const Columns: seq<int> := [50, 180, 450, 520]
  const TitleSize: int := 14
  const HeaderSize: int := 11
  const RowSize: int := 10
  const TitleY: int := 50
  const HeaderY: int := 80
  /** The gap between the header line and the first data row. */
  const HeaderGap: int := 20
  const LineHeight: int := 15
  /** A cursor below this line opens a new page. */
  const PageBottom: int := 780
  /** The cursor on a fresh page. */
  const TopY: int := 50

  function StatusLabel(s: Status): string
  {
    match s
    case Aprovado => "Aprovado"
    case Reprovado => "Reprovado"
  }

  /** The four texts of one data row, at height y. */
  function RowCells(e: Entry, y: int): seq<Placement>
  {
    [Placement(Columns[0], y, RowSize, Label(e.name)),
     Placement(Columns[1], y, RowSize, Label(e.courses)),
     Placement(Columns[2], y, RowSize, Amount(e.total)),
     Placement(Columns[3], y, RowSize, Label(StatusLabel(e.status)))]
  }

  /** The title and the four column headers that open the first page. */
  function HeaderBlock(): seq<Placement>
  {
    [Placement(50, TitleY, TitleSize, Label(Title))] +
    seq(4, i requires 0 <= i < 4 => Placement(Columns[i], HeaderY, HeaderSize, Label(Headers[i])))
  }

  /** Placing texts on the current (last) page. */
  function Put(pdf: seq<Page>, cells: seq<Placement>): (r: seq<Page>)
    requires pdf != []
  {
    pdf[|pdf| - 1 := pdf[|pdf| - 1] + cells]
  }

  /** Rows that fit on the first page, below the header. */
  const FirstPageRows: nat := 46
  /** Rows that fit on every later page. */
  const PageRows: nat := 49

  /** The page data row k (from 0) lands on. */
  function PageOf(k: nat): nat
  {
    if k < FirstPageRows then 0 else 1 + (k - FirstPageRows) / PageRows
  }

  /** The height data row k is drawn at. */
  function RowY(k: nat): int
  {
    if k < FirstPageRows then HeaderY + HeaderGap + LineHeight * k
    else TopY + LineHeight * ((k - FirstPageRows) % PageRows)
  }

  /** How many texts precede data row k on its page. */
  function Offset(k: nat): nat
  {
    if k < FirstPageRows then 5 + 4 * k else 4 * ((k - FirstPageRows) % PageRows)
  }

  /** The number of texts on a page that was filled and left. */
  function FullPageLength(p: nat): nat
  {
    if p == 0 then 5 + 4 * FirstPageRows else 4 * PageRows
  }

  /** Data row k shows entry e, on its page, at its height, in its place. */
  predicate DrawnAt(pdf: seq<Page>, k: nat, e: Entry)
  {
    PageOf(k) < |pdf| && Offset(k) + 4 <= |pdf[PageOf(k)]| &&
    pdf[PageOf(k)][Offset(k)..Offset(k) + 4] == RowCells(e, RowY(k))
  }

  /** One step of the cursor: the row below the current one is 15 lower, unless
      the cursor passed 780 — then a new page starts, at 50, with the next row at
      its top. So the first page holds 46 rows and every later page 49. */
  lemma Advance(k: nat)
    ensures RowY(k) + LineHeight > PageBottom ==>
      PageOf(k + 1) == PageOf(k) + 1 && RowY(k + 1) == TopY && Offset(k + 1) == 0 &&
      Offset(k) + 4 == FullPageLength(PageOf(k))
    ensures RowY(k) + LineHeight <= PageBottom ==>
      PageOf(k + 1) == PageOf(k) && RowY(k + 1) == RowY(k) + LineHeight && Offset(k + 1) == Offset(k) + 4
  {
    if k >= FirstPageRows {
      var q, r := (k - FirstPageRows) / PageRows, (k - FirstPageRows) % PageRows;
      assert k - FirstPageRows == PageRows * q + r;
      if r < PageRows - 1 {
        assert k + 1 - FirstPageRows == PageRows * q + (r + 1);
      } else {
        assert k + 1 - FirstPageRows == PageRows * (q + 1) + 0;
      }
    }
  }

  /** The index of the first data row on page p. */
  function FirstRowOn(p: nat): nat
  {
    if p == 0 then 0 else FirstPageRows + PageRows * (p - 1)
  }

  /** Page p holds exactly the rows from FirstRowOn(p) up to FirstRowOn(p + 1):
      46 rows on the first page, 49 on every later one. */
  lemma RowsOfPage(k: nat, p: nat)
    ensures PageOf(k) == p <==> FirstRowOn(p) <= k < FirstRowOn(p + 1)
  {
    if k >= FirstPageRows {
      var q, r := (k - FirstPageRows) / PageRows, (k - FirstPageRows) % PageRows;
      assert k - FirstPageRows == PageRows * q + r;
      if p >= 1 && FirstRowOn(p) <= k < FirstRowOn(p + 1) {
        assert PageRows * (p - 1) <= PageRows * q + r < PageRows * p;
      }
    }
  }

  /** Every data row is drawn between the top margin and the 780 line, and rows on
      the first page stay below the header. */
  lemma RowsWithinPage(k: nat)
    ensures TopY <= RowY(k) <= PageBottom
    ensures PageOf(k) == 0 ==> RowY(k) >= HeaderY + HeaderGap
  {
  }

  /** Rows come in order: an earlier row is on an earlier page, or above on the
      same page. */
  lemma EarlierRow(i: nat, k: nat)
    requires i < k
    ensures PageOf(i) <= PageOf(k)
    ensures PageOf(i) == PageOf(k) ==> Offset(i) + 4 <= Offset(k) && RowY(i) < RowY(k)
  {
    if i >= FirstPageRows {
      var qi, ri := (i - FirstPageRows) / PageRows, (i - FirstPageRows) % PageRows;
      var qk, rk := (k - FirstPageRows) / PageRows, (k - FirstPageRows) % PageRows;
      assert i - FirstPageRows == PageRows * qi + ri;
      assert k - FirstPageRows == PageRows * qk + rk;
      if qi == qk {
        assert ri < rk;
      }
    }
  }

  /** Adding texts to the current page keeps every row already drawn. */
  lemma PutKeepsRows(pdf: seq<Page>, cells: seq<Placement>, info: seq<Entry>, k: nat)
    requires pdf != [] && k <= |info|
    requires |pdf| == PageOf(k) + 1 && |pdf[|pdf| - 1]| == Offset(k)
    requires forall i :: 0 <= i < k ==> DrawnAt(pdf, i, info[i])
    ensures forall i :: 0 <= i < k ==> DrawnAt(Put(pdf, cells), i, info[i])
  {
    var last := |pdf| - 1;
    forall i | 0 <= i < k ensures DrawnAt(Put(pdf, cells), i, info[i]) {
      EarlierRow(i, k);
      if PageOf(i) == last {
        assert (pdf[last] + cells)[Offset(i)..Offset(i) + 4] == pdf[last][Offset(i)..Offset(i) + 4];
      }
    }
  }

  /** The state of the page-layout loop after k data rows: the pages so far, the
      cursor, and every row drawn in its place. */
  predicate Laid(pdf: seq<Page>, y: int, info: seq<Entry>, k: nat)
    requires k <= |info|
  {
    |pdf| == PageOf(k) + 1 && y == RowY(k) && |pdf[|pdf| - 1]| == Offset(k) &&
    |pdf[0]| >= 5 && pdf[0][..5] == HeaderBlock() &&
    (forall p :: 0 <= p < |pdf| - 1 ==> |pdf[p]| == FullPageLength(p)) &&
    (forall i :: 0 <= i < k ==> DrawnAt(pdf, i, info[i])) &&
    (forall p, j :: 1 <= p < |pdf| && 0 <= j < |pdf[p]| ==> pdf[p][j].size == RowSize)
  }

  /** Drawing data row k at the cursor and moving the cursor on (to a new page when
      it passes 780) gives the state after k + 1 rows. */
  lemma RowStep(pdf: seq<Page>, y: int, info: seq<Entry>, k: nat)
    requires k < |info| && Laid(pdf, y, info, k)
    ensures var next := Put(pdf, RowCells(info[k], y));
      if y + LineHeight > PageBottom then Laid(next + [[]], TopY, info, k + 1)
      else Laid(next, y + LineHeight, info, k + 1)
  {
    var next := Put(pdf, RowCells(info[k], y));
    PutKeepsRows(pdf, RowCells(info[k], y), info, k);
    Advance(k);
    var last := |pdf| - 1;
    assert next[last] == pdf[last] + RowCells(info[k], y);
    assert next[last][Offset(k)..Offset(k) + 4] == RowCells(info[k], y);
    assert DrawnAt(next, k, info[k]);
    assert next[0][..5] == pdf[0][..5];
    if y + LineHeight > PageBottom {
      var turned := next + [[]];
      forall i | 0 <= i <= k ensures DrawnAt(turned, i, info[i]) {
        assert DrawnAt(next, i, info[i]);
        assert turned[PageOf(i)] == next[PageOf(i)];
      }
    }
  }

  /** The finished layout of a list of entries. The first page opens with the
      title at y=50 and the header at y=80; data row k is drawn on page PageOf(k)
      at height RowY(k); pages filled and left hold 46 rows (the first) or 49; the
      last page holds what remains, and is empty when the rows end exactly where a
      page filled; later pages carry data rows only, no header. */
  predicate LaidOut(pdf: seq<Page>, info: seq<Entry>)
  {
    |pdf| == PageOf(|info|) + 1 &&
    |pdf[0]| >= 5 && pdf[0][..5] == HeaderBlock() &&
    (forall p :: 0 <= p < |pdf| - 1 ==> |pdf[p]| == FullPageLength(p)) &&
    |pdf[|pdf| - 1]| == Offset(|info|) &&
    (|pdf[|pdf| - 1]| == 0 <==> |info| >= FirstPageRows && (|info| - FirstPageRows) % PageRows == 0) &&
    (forall k :: 0 <= k < |info| ==> DrawnAt(pdf, k, info[k])) &&
    (forall p, j :: 1 <= p < |pdf| && 0 <= j < |pdf[p]| ==> pdf[p][j].size == RowSize)
  }

  /** The page-layout loop: title, header, then one row per entry, moving the
      cursor 15 down per row and to y=50 of a new page once it passes 780. */
  method LayOut(info: seq<Entry>) returns (pdf: seq<Page>)
    ensures LaidOut(pdf, info)
  {
    pdf := [[]];
    pdf := Put(pdf, [Placement(50, TitleY, TitleSize, Label(Title))]);
    var y := HeaderY;
    for i := 0 to 4
      invariant |pdf| == 1 && pdf[0] == HeaderBlock()[..i + 1]
    {
      pdf := Put(pdf, [Placement(Columns[i], y, HeaderSize, Label(Headers[i]))]);
    }
    y := y + HeaderGap;
    assert pdf[0][..5] == HeaderBlock();
    for k := 0 to |info|
      invariant Laid(pdf, y, info, k)
    {
      RowStep(pdf, y, info, k);
      pdf := Put(pdf, RowCells(info[k], y));
      y := y + LineHeight;
      if y > PageBottom {
        pdf := pdf + [[]];
        y := TopY;
      }
    }
  }

  /** `gerar_pdf_compacto`: the summary, then its pages. */
  method GenerateReport(rows: seq<Row>) returns (pdf: seq<Page>, info: seq<Entry>)
    ensures |info| == |Names(rows)|
    ensures forall i :: 0 <= i < |info| ==> info[i].name == Names(rows)[i]
    ensures forall i :: 0 <= i < |info| ==> info[i].courses == Join(CourseNames(RowsOf(rows, info[i].name)))
    ensures forall i :: 0 <= i < |info| ==>
      Line(rows, info[i].name) == StaffTotal(info[i].name, info[i].total, info[i].status)
    ensures LaidOut(pdf, info)
  {
    info := Summarize(rows);
    pdf := LayOut(info);
  }

  /** "Gerar relatório PDF" (lines 192-193): the report over the rows of the staff
      members the status filter lets through. Every entry is such a member, with
      the total and status the whole table gives them. */
  method ReportForFilter(rows: seq<Row>, f: StatusFilter) returns (pdf: seq<Page>, info: seq<Entry>)
    ensures forall i :: 0 <= i < |info| ==>
      HasName(rows, info[i].name) && Passes(f, info[i].status) &&
      info[i].total == Hours(rows, info[i].name) && info[i].status == StatusFor(info[i].total)
    ensures forall n :: HasName(rows, n) && Passes(f, StatusFor(Hours(rows, n))) ==>
      exists i :: 0 <= i < |info| && info[i].name == n
    ensures |info| == |Names(FilteredRows(rows, f))|
    ensures forall i :: 0 <= i < |info| ==> info[i].name == Names(FilteredRows(rows, f))[i]
    ensures forall i, j :: 0 <= i < j < |info| ==> info[i].name != info[j].name
    ensures forall i :: 0 <= i < |info| ==> info[i].courses == Join(CourseNames(RowsOf(rows, info[i].name)))
    ensures LaidOut(pdf, info)
  {
    var filtered := FilteredRows(rows, f);
    pdf, info := GenerateReport(filtered);
    var names := Names(filtered);
    forall i | 0 <= i < |info|
      ensures HasName(rows, info[i].name) && Passes(f, info[i].status)
      ensures info[i].total == Hours(rows, info[i].name) && info[i].status == StatusFor(info[i].total)
      ensures info[i].courses == Join(CourseNames(RowsOf(rows, info[i].name)))
    {
      assert names[i] in names;
      FilteredMember(rows, f, info[i].name);
    }
    forall n | HasName(rows, n) && Passes(f, StatusFor(Hours(rows, n)))
      ensures exists i :: 0 <= i < |info| && info[i].name == n
    {
      PassingMemberReported(rows, f, n);
      var i :| 0 <= i < |names| && names[i] == n;
      assert info[i].name == n;
    }
  }

  /** A member with rows in the filtered table passes the filter on the whole
      table, and keeps there the rows and total the whole table gives them. */
  lemma FilteredMember(rows: seq<Row>, f: StatusFilter, n: string)
    requires HasName(FilteredRows(rows, f), n)
    ensures HasName(rows, n) && Passes(f, StatusFor(Hours(rows, n)))
    ensures Hours(FilteredRows(rows, f), n) == Hours(rows, n)
    ensures RowsOf(FilteredRows(rows, f), n) == RowsOf(rows, n)
  {
    var r := FilteredRows(rows, f);
    var j :| 0 <= j < |r| && r[j].name == n;
    assert r[j] in r;
    var k :| 0 <= k < |rows| && rows[k] == r[j];
    FilteredRowsCorrect(rows, f, r[j]);
    assert n in Selected(rows, f);
    RowsOfRowsNamed(rows, Selected(rows, f), n);
  }

  /** Every member whose status passes the filter has rows in the filtered table. */
  lemma PassingMemberReported(rows: seq<Row>, f: StatusFilter, n: string)
    requires HasName(rows, n) && Passes(f, StatusFor(Hours(rows, n)))
    ensures HasName(FilteredRows(rows, f), n)
  {
    var r := FilteredRows(rows, f);
    var j :| 0 <= j < |rows| && rows[j].name == n;
    assert rows[j] in rows;
    assert rows[j] in r;
    var k :| 0 <= k < |r| && r[k] == rows[j];
  }
}
