/** `calcular_status`: per-staff totals and the 40-hour pass mark, and the status
    filter the main screen applies before listing staff and building a report. */
module Aggregation {
  import opened Text
  import opened Rows

  datatype Status = Aprovado | Reprovado

  /** The pass mark: a total of at least this many hours is Aprovado. */
  const MinimumHours: int := 40

  /** The label the ledger gives a total. */
  function StatusFor(total: int): (s: Status)
    ensures s == Aprovado <==> total >= MinimumHours
    ensures s == Reprovado <==> total < MinimumHours
  {
    if total >= MinimumHours then Aprovado else Reprovado
  }

  /** One line of the `calcular_status` table. */
  datatype StaffTotal = StaffTotal(name: string, total: int, status: Status)

  /** The line of the group of name `n`. */
  function Line(rows: seq<Row>, n: string): StaffTotal
  {
    StaffTotal(n, Hours(rows, n), StatusFor(Hours(rows, n)))
  }

  /** `calcular_status(df)`: group by the exact staff name, sum the hours, label
      each group. Groups come out ordered by name, as `groupby` orders its keys. */
  function CalcStatus(rows: seq<Row>): (r: seq<StaffTotal>)
    ensures forall i :: 0 <= i < |r| ==> HasName(rows, r[i].name) && r[i].total == Hours(rows, r[i].name)
    ensures forall i :: 0 <= i < |r| ==> (r[i].status == Aprovado <==> r[i].total >= MinimumHours)
    ensures forall n :: HasName(rows, n) ==> exists i :: 0 <= i < |r| && r[i].name == n
    ensures forall i, j :: 0 <= i < j < |r| ==> Below(r[i].name, r[j].name)
  {
    var names := Sort(Names(rows));
    SortDistinct(Names(rows));
    var r := seq(|names|, i requires 0 <= i < |names| => Line(rows, names[i]));
    assert forall i :: 0 <= i < |r| ==> r[i].name == names[i];
    CoveredNames(names, r);
    r
  }

  lemma CoveredNames(names: seq<string>, r: seq<StaffTotal>)
    requires |r| == |names|
    requires forall i :: 0 <= i < |r| ==> r[i].name == names[i]
    ensures forall n :: n in names ==> exists i :: 0 <= i < |r| && r[i].name == n
  {
    forall n | n in names ensures exists i :: 0 <= i < |r| && r[i].name == n {
      var i :| 0 <= i < |names| && names[i] == n;
      assert r[i].name == n;
    }
  }

  /** The status threshold: a name that occurs in the table has exactly one line in
      `calcular_status`, and it reads Aprovado iff the hours of the rows carrying
      exactly that name add up to 40 or more (so exactly 40 passes). */
  lemma StatusThreshold(rows: seq<Row>, n: string)
    requires HasName(rows, n)
    ensures exists i :: 0 <= i < |CalcStatus(rows)| && CalcStatus(rows)[i].name == n
    ensures forall i :: 0 <= i < |CalcStatus(rows)| && CalcStatus(rows)[i].name == n ==>
      (CalcStatus(rows)[i].status == Aprovado <==> SumHours(RowsOf(rows, n)) >= 40)
    ensures forall i, j :: 0 <= i < j < |CalcStatus(rows)| ==> CalcStatus(rows)[i].name != CalcStatus(rows)[j].name
  {
    HoursOfOwnRows(rows, n);
    var r := CalcStatus(rows);
    forall i, j | 0 <= i < j < |r| ensures r[i].name != r[j].name {
      BelowIrreflexive(r[i].name);
    }
  }

  /** Every name of the table has its line in `calcular_status`. */
  lemma LineOfEveryName(rows: seq<Row>, n: string)
    requires HasName(rows, n)
    ensures exists j :: 0 <= j < |CalcStatus(rows)| && CalcStatus(rows)[j] == Line(rows, n)
  {
    var lines := CalcStatus(rows);
    var j :| 0 <= j < |lines| && lines[j].name == n;
    assert lines[j] == Line(rows, n);
  }

  /** Names are grouped by exact equality: "Ana" and "ana" are two staff members,
      each short of the mark although together they hold 40 hours. */
  lemma NamesAreCaseSensitive()
    ensures CalcStatus([Row("Ana", "a@x", "LGPD", 20), Row("ana", "a@x", "LGPD", 20)])
      == [StaffTotal("Ana", 20, Reprovado), StaffTotal("ana", 20, Reprovado)]
  {
    var rows := [Row("Ana", "a@x", "LGPD", 20), Row("ana", "a@x", "LGPD", 20)];
    assert rows[..1] == [rows[0]];
    assert Names(rows) == ["Ana", "ana"];
    assert Below("Ana", "ana");
    assert Sort(["Ana", "ana"]) == ["Ana", "ana"];
  }

  /** The radio options of the main screen: "Todos", "Aprovado", "Reprovado". */
  datatype StatusFilter = Todos | Only(wanted: Status)

  predicate Passes(f: StatusFilter, s: Status)
  {
    f.Todos? || f.wanted == s
  }

  /** The names of the `calcular_status` lines that pass the filter. */
  function PassingNames(lines: seq<StaffTotal>, f: StatusFilter): (r: seq<string>)
    ensures forall n :: n in r <==> exists i :: 0 <= i < |lines| && lines[i].name == n && Passes(f, lines[i].status)
  {
    if lines == [] then []
    else
      var init := lines[..|lines| - 1];
      var last := lines[|lines| - 1];
      var prior := PassingNames(init, f);
      assert forall i :: 0 <= i < |init| ==> init[i] == lines[i];
      if Passes(f, last.status) then prior + [last.name] else prior
  }

  /** Lines with distinct names give distinct passing names. */
  lemma {:induction false} PassingNamesDistinct(lines: seq<StaffTotal>, f: StatusFilter)
    requires forall i, j :: 0 <= i < j < |lines| ==> lines[i].name != lines[j].name
    ensures Distinct(PassingNames(lines, f))
  {
    if lines != [] {
      var init := lines[..|lines| - 1];
      var last := lines[|lines| - 1];
      PassingNamesDistinct(init, f);
      var prior := PassingNames(init, f);
      assert forall i :: 0 <= i < |init| ==> init[i].name != last.name;
      assert last.name !in prior;
      var r := PassingNames(lines, f);
      assert r == prior || r == prior + [last.name];
      forall i, j | 0 <= i < j < |r| ensures r[i] != r[j] {
        if j == |prior| {
          assert r[i] == prior[i] && prior[i] in prior;
        } else {
          assert r[i] == prior[i] && r[j] == prior[j];
        }
      }
    }
  }

  /** The staff list of the main screen (line 169), after the filter: the names
      whose status the filter accepts, in ascending order, each once. */
  function Selected(rows: seq<Row>, f: StatusFilter): (r: seq<string>)
    ensures StrictlyAscending(r)
    ensures forall n :: n in r <==> HasName(rows, n) && Passes(f, StatusFor(Hours(rows, n)))
  {
    var lines := CalcStatus(rows);
    forall i, j | 0 <= i < j < |lines| ensures lines[i].name != lines[j].name {
      BelowIrreflexive(lines[i].name);
    }
    PassingNamesDistinct(lines, f);
    SortDistinct(PassingNames(lines, f));
    Sort(PassingNames(lines, f))
  }

  /** The rows whose staff name is one of `names` (the membership mask of line 192). */
  function RowsNamed(rows: seq<Row>, names: seq<string>): seq<Row>
  {
    Keep(rows, (x: Row) => x.name in names)
  }

  /** The selection holds exactly the table's rows whose name is listed. */
  lemma RowsNamedMembers(rows: seq<Row>, names: seq<string>)
    ensures forall x :: x in RowsNamed(rows, names) <==> x in rows && x.name in names
  {
    KeepContains(rows, (x: Row) => x.name in names);
  }

  /** The table the report is built from: the rows of every selected staff member. */
  function FilteredRows(rows: seq<Row>, f: StatusFilter): (r: seq<Row>)
    ensures forall x :: x in r <==> x in rows && Passes(f, StatusFor(Hours(rows, x.name)))
  {
    var names := Selected(rows, f);
    RowsNamedMembers(rows, names);
    forall x | x in rows ensures HasName(rows, x.name) {
      var i :| 0 <= i < |rows| && rows[i] == x;
    }
    RowsNamed(rows, names)
  }

  /** The "Todos" filter reports on the whole table. */
  lemma FilteredRowsTodos(rows: seq<Row>)
    ensures FilteredRows(rows, Todos) == rows
  {
    var names := Selected(rows, Todos);
    forall i | 0 <= i < |rows| ensures rows[i].name in names {
      assert HasName(rows, rows[i].name);
    }
    KeepEverything(rows, (x: Row) => x.name in names);
  }

  /** A listed member's own rows are the same in the selection as in the table. */
  lemma {:induction false} RowsOfRowsNamed(rows: seq<Row>, names: seq<string>, n: string)
    requires n in names
    ensures RowsOf(RowsNamed(rows, names), n) == RowsOf(rows, n)
  {
    if rows != [] {
      var init, last := rows[..|rows| - 1], rows[|rows| - 1];
      RowsOfRowsNamed(init, names, n);
      var kept := RowsNamed(init, names);
      var own := if last.name == n then [last] else [];
      assert RowsOf(rows, n) == RowsOf(init, n) + own;
      if last.name in names {
        assert RowsNamed(rows, names) == kept + [last];
        assert (kept + [last])[..|kept|] == kept;
        assert RowsOf(kept + [last], n) == RowsOf(kept, n) + own;
      } else {
        assert RowsNamed(rows, names) == kept;
        assert own == [];
      }
    }
  }

  /** Selecting whole staff members keeps each member's total intact, and drops
      everyone else's to nothing. */
  lemma {:induction false} HoursOfRowsNamed(rows: seq<Row>, names: seq<string>, n: string)
    ensures Hours(RowsNamed(rows, names), n) == if n in names then Hours(rows, n) else 0
  {
    if rows != [] {
      var init := rows[..|rows| - 1];
      var last := rows[|rows| - 1];
      HoursOfRowsNamed(init, names, n);
      var kept := RowsNamed(init, names);
      if last.name in names {
        assert RowsNamed(rows, names) == kept + [last];
        assert (kept + [last])[..|kept|] == kept;
      } else {
        assert RowsNamed(rows, names) == kept;
      }
    }
  }

  /** The status filter keeps every row of exactly the staff members whose status
      it accepts, each as often as it occurred, and leaves each kept member's total
      and status as they were on the whole table. */
  lemma FilteredRowsCorrect(rows: seq<Row>, f: StatusFilter, x: Row)
    ensures multiset(FilteredRows(rows, f))[x] ==
      if Passes(f, StatusFor(Hours(rows, x.name))) then multiset(rows)[x] else 0
    ensures Hours(FilteredRows(rows, f), x.name) ==
      if Passes(f, StatusFor(Hours(rows, x.name))) then Hours(rows, x.name) else 0
  {
    var names := Selected(rows, f);
    KeepMultiplicity(rows, (y: Row) => y.name in names, x);
    HoursOfRowsNamed(rows, names, x.name);
    if x in multiset(rows) {
      var i :| 0 <= i < |rows| && rows[i] == x;
      assert HasName(rows, x.name);
    } else if !HasName(rows, x.name) {
      assert x.name !in names;
    }
  }
}
