/** The enrollment table: one row per completed course, in store order, and the
    selections the ledger makes on it (a boolean mask, the first matching row,
    the rows of one staff member, their summed hours, the distinct names). */
module Rows {
  import opened Text

  /** One line of the "Cursos Realizados" sheet: staff name, email, course and
      hours, in the sheet's column order. Hours come from a numeric form field and
      are not range-checked. */
  datatype Row = Row(name: string, email: string, course: string, hours: int)

  datatype Option<T> = None | Some(value: T)

  /** A boolean-mask selection: the rows that satisfy `keep`, in store order. */
  function Keep(rows: seq<Row>, keep: Row -> bool): (r: seq<Row>)
    ensures |r| <= |rows|
    ensures forall x :: x in r ==> x in rows && keep(x)
  {
    if rows == [] then []
    else
      var last := rows[|rows| - 1];
      Keep(rows[..|rows| - 1], keep) + (if keep(last) then [last] else [])
  }

  /** Every row of the table that satisfies `keep` is selected. */
  lemma KeepContains(rows: seq<Row>, keep: Row -> bool)
    ensures forall x :: x in rows && keep(x) ==> x in Keep(rows, keep)
  {
    forall x | x in rows && keep(x) ensures x in Keep(rows, keep) {
      KeepMultiplicity(rows, keep, x);
      assert x in multiset(rows);
    }
  }

  /** Selection distributes over concatenation: splitting the table anywhere splits
      the selection at the same place, so kept rows stay in their relative order. */
  lemma {:induction false} KeepAppend(a: seq<Row>, b: seq<Row>, keep: Row -> bool)
    ensures Keep(a + b, keep) == Keep(a, keep) + Keep(b, keep)
  {
    if b == [] {
      assert a + b == a;
    } else {
      var init := b[..|b| - 1];
      assert (a + b)[..|a + b| - 1] == a + init;
      KeepAppend(a, init, keep);
    }
  }

  /** A row survives the selection exactly as often as it occurs when it
      satisfies `keep`, and never otherwise. */
  lemma {:induction false} KeepMultiplicity(rows: seq<Row>, keep: Row -> bool, x: Row)
    ensures multiset(Keep(rows, keep))[x] == if keep(x) then multiset(rows)[x] else 0
  {
    if rows != [] {
      var init := rows[..|rows| - 1];
      assert rows == init + [rows[|rows| - 1]];
      KeepMultiplicity(init, keep, x);
    }
  }

  /** A selection that every row passes is the whole table. */
  lemma {:induction false} KeepEverything(rows: seq<Row>, keep: Row -> bool)
    requires forall i :: 0 <= i < |rows| ==> keep(rows[i])
    ensures Keep(rows, keep) == rows
  {
    if rows != [] {
      var init := rows[..|rows| - 1];
      var last := rows[|rows| - 1];
      assert keep(last);
      assert forall i :: 0 <= i < |init| ==> init[i] == rows[i];
      KeepEverything(init, keep);
      assert Keep(rows, keep) == init + [last];
      assert rows == init + [last];
    }
  }

  /** `index[0]` / `iloc[0]` on a selection: the position of the first row in
      store order that satisfies `f`, or None when there is none. */
  function FirstIndex(rows: seq<Row>, f: Row -> bool): (r: Option<nat>)
    ensures r.Some? ==> r.value < |rows| && f(rows[r.value])
    ensures r.Some? ==> forall j :: 0 <= j < r.value ==> !f(rows[j])
    ensures r.None? ==> forall j :: 0 <= j < |rows| ==> !f(rows[j])
  {
    if rows == [] then None
    else if f(rows[0]) then Some(0)
    else match FirstIndex(rows[1..], f)
      case None => None
      case Some(j) => Some(j + 1)
  }

  /** Whether some row carries exactly this name. */
  predicate HasName(rows: seq<Row>, n: string)
  {
    exists i :: 0 <= i < |rows| && rows[i].name == n
  }

  /** The first row, in store order, with exactly this name. */
  function FirstRowOf(rows: seq<Row>, n: string): Option<nat>
  {
    FirstIndex(rows, (r: Row) => r.name == n)
  }

  /** The rows of one staff member: those whose name is exactly `n`. */
  function RowsOf(rows: seq<Row>, n: string): seq<Row>
  {
    Keep(rows, (r: Row) => r.name == n)
  }

  /** A member's selection holds exactly the table's rows that carry the name. */
  lemma RowsOfMembers(rows: seq<Row>, n: string)
    ensures forall x :: x in RowsOf(rows, n) <==> x in rows && x.name == n
  {
    KeepContains(rows, (r: Row) => r.name == n);
  }

  /** The hours column of a selection, added up. */
  function SumHours(rows: seq<Row>): int
  {
    if rows == [] then 0 else SumHours(rows[..|rows| - 1]) + rows[|rows| - 1].hours
  }

  /** With no negative hours, the sum is non-negative and at least any one row's hours. */
  lemma {:induction false} SumHoursBounds(rows: seq<Row>)
    requires forall i :: 0 <= i < |rows| ==> rows[i].hours >= 0
    ensures SumHours(rows) >= 0
    ensures forall i :: 0 <= i < |rows| ==> SumHours(rows) >= rows[i].hours
  {
    if rows != [] {
      var init := rows[..|rows| - 1];
      SumHoursBounds(init);
      assert forall i :: 0 <= i < |init| ==> init[i] == rows[i];
    }
  }

  /** Summing splits over any split of the selection. */
  lemma {:induction false} SumHoursAppend(a: seq<Row>, b: seq<Row>)
    ensures SumHours(a + b) == SumHours(a) + SumHours(b)
  {
    if b == [] {
      assert a + b == a;
    } else {
      var init := b[..|b| - 1];
      assert (a + b)[..|a + b| - 1] == a + init;
      SumHoursAppend(a, init);
    }
  }

  /** The course column of a selection, as a list in row order. */
  function CourseNames(rows: seq<Row>): (r: seq<string>)
    ensures |r| == |rows|
    ensures forall i :: 0 <= i < |rows| ==> r[i] == rows[i].course
  {
    if rows == [] then [] else CourseNames(rows[..|rows| - 1]) + [rows[|rows| - 1].course]
  }

  /** The hours that grouping by staff name and summing gives the
      group of name `n`: every row's hours accumulated into its own name's total. */
  function Hours(rows: seq<Row>, n: string): (total: int)
    ensures !HasName(rows, n) ==> total == 0
  {
    if rows == [] then 0
    else
      var last := rows[|rows| - 1];
      assert !HasName(rows, n) ==> !HasName(rows[..|rows| - 1], n);
      Hours(rows[..|rows| - 1], n) + (if last.name == n then last.hours else 0)
  }

  /** A group's total is the sum over exactly the rows that carry its name. */
  lemma {:induction false} HoursOfOwnRows(rows: seq<Row>, n: string)
    ensures Hours(rows, n) == SumHours(RowsOf(rows, n))
  {
    if rows != [] {
      var init := rows[..|rows| - 1];
      var last := rows[|rows| - 1];
      HoursOfOwnRows(init, n);
      var own := RowsOf(init, n);
      if last.name == n {
        assert RowsOf(rows, n) == own + [last];
        assert (own + [last])[..|own|] == own;
      } else {
        assert RowsOf(rows, n) == own;
      }
    }
  }

  /** Totals distribute over concatenation. */
  lemma {:induction false} HoursAppend(a: seq<Row>, b: seq<Row>, n: string)
    ensures Hours(a + b, n) == Hours(a, n) + Hours(b, n)
  {
    if b == [] {
      assert a + b == a;
    } else {
      var init := b[..|b| - 1];
      assert (a + b)[..|a + b| - 1] == a + init;
      HoursAppend(a, init, n);
    }
  }

  /** What one row adds to the total of name `n`. */
  function Contribution(x: Row, n: string): int
  {
    if x.name == n then x.hours else 0
  }

  /** Overwriting one row changes each total by the difference of what the old
      and the new row add to it. */
  lemma HoursUpdate(rows: seq<Row>, i: nat, x: Row, n: string)
    requires i < |rows|
    ensures Hours(rows[i := x], n) == Hours(rows, n) - Contribution(rows[i], n) + Contribution(x, n)
  {
    var before, after := rows[..i], rows[i + 1..];
    assert rows == before + [rows[i]] + after;
    assert rows[i := x] == before + [x] + after;
    HoursAppend(before + [rows[i]], after, n);
    HoursAppend(before + [x], after, n);
    HoursAppend(before, [rows[i]], n);
    HoursAppend(before, [x], n);
    assert [rows[i]][..0] == [] && [x][..0] == [];
  }

  /** The distinct staff names: each name once, in order of first
      appearance. */
  function Names(rows: seq<Row>): (r: seq<string>)
    ensures Distinct(r)
    ensures forall n :: n in r <==> HasName(rows, n)
  {
    if rows == [] then []
    else
      var init := rows[..|rows| - 1];
      var last := rows[|rows| - 1];
      var prior := Names(init);
      HasNameSplit(rows, last.name);
      forall n ensures HasName(rows, n) <==> HasName(init, n) || n == last.name {
        HasNameSplit(rows, n);
      }
      if last.name in prior then prior else prior + [last.name]
  }

  /** A name occurs in a non-empty table iff it occurs before the last row or on it. */
  lemma HasNameSplit(rows: seq<Row>, n: string)
    requires rows != []
    ensures HasName(rows, n) <==> HasName(rows[..|rows| - 1], n) || rows[|rows| - 1].name == n
  {
    if HasName(rows, n) {
      var i :| 0 <= i < |rows| && rows[i].name == n;
      if i < |rows| - 1 {
        assert rows[..|rows| - 1][i] == rows[i];
      }
    }
    if HasName(rows[..|rows| - 1], n) {
      var i :| 0 <= i < |rows| - 1 && rows[..|rows| - 1][i].name == n;
      assert rows[i].name == n;
    }
  }

  /** Appending rows does not move the first row of a name that already occurs. */
  lemma FirstRowOfExtended(rows: seq<Row>, more: seq<Row>, n: string)
    requires HasName(rows, n)
    ensures FirstRowOf(rows + more, n) == FirstRowOf(rows, n)
  {
    var f := (r: Row) => r.name == n;
    var k := FirstIndex(rows, f);
    var i :| 0 <= i < |rows| && rows[i].name == n;
    assert f(rows[i]);
    var whole := FirstIndex(rows + more, f);
    assert (rows + more)[i] == rows[i];
    assert (rows + more)[k.value] == rows[k.value];
    forall j | 0 <= j < k.value ensures !f((rows + more)[j]) {
      assert (rows + more)[j] == rows[j];
    }
  }

  /** `unique()` lists names in the order of their first rows. */
  lemma {:induction false} NamesInFirstAppearanceOrder(rows: seq<Row>, i: nat, j: nat)
    requires i < j < |Names(rows)|
    ensures FirstRowOf(rows, Names(rows)[i]).Some? && FirstRowOf(rows, Names(rows)[j]).Some?
    ensures FirstRowOf(rows, Names(rows)[i]).value < FirstRowOf(rows, Names(rows)[j]).value
  {
    var init := rows[..|rows| - 1];
    var last := rows[|rows| - 1];
    var prior := Names(init);
    var a, b := Names(rows)[i], Names(rows)[j];
    assert rows == init + [last];
    assert a in Names(rows) && b in Names(rows);
    assert HasName(rows, a) && HasName(rows, b);
    if j < |prior| {
      assert prior[i] == a && prior[j] == b;
      NamesInFirstAppearanceOrder(init, i, j);
      FirstRowOfExtended(init, [last], a);
      FirstRowOfExtended(init, [last], b);
    } else {
      // b is the newly seen name of the last row, which no earlier row carries
      assert Names(rows) == prior + [last.name] && b == last.name;
      assert !HasName(init, b);
      assert prior[i] == a;
      FirstRowOfExtended(init, [last], a);
      var fa := FirstRowOf(init, a);
      var fb := FirstRowOf(rows, b);
      forall k | 0 <= k < |rows| - 1 ensures rows[k].name != b {
        assert init[k] == rows[k];
      }
    }
  }
}
