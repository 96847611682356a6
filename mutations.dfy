/** The five changes the staff menu makes to the table, each as a transform of
    the whole row sequence: insert a course, edit the first matching course,
    delete every matching course, rename a staff member (with a new email), and
    delete a staff member. */
module Mutations {
  import opened Rows
  import opened Aggregation

  /** The failures of the menu's lookups: `iloc[0]` on a staff member without rows,
      `index[0]` on a course the staff member does not have. */
  datatype LedgerError = UnknownStaff | CourseNotFound

  datatype Result<T> = Ok(value: T) | Err(error: LedgerError)

  /** Every two rows with the same name carry the same email. */
  predicate EmailConsistent(rows: seq<Row>)
  {
    forall i, j :: 0 <= i < |rows| && 0 <= j < |rows| && rows[i].name == rows[j].name ==>
      rows[i].email == rows[j].email
  }

  /** "Inserir curso": copy the email of the staff member's first row and append
      one new row at the end; the hours are taken as given. */
  function InsertCourse(rows: seq<Row>, name: string, course: string, hours: int): (r: Result<seq<Row>>)
    ensures r.Err? <==> !HasName(rows, name)
    ensures r.Err? ==> r.error == UnknownStaff
    ensures r.Ok? ==> |r.value| == |rows| + 1 && r.value[..|rows|] == rows
    ensures r.Ok? ==> (exists i :: 0 <= i < |rows| && rows[i].name == name &&
                         (forall j :: 0 <= j < i ==> rows[j].name != name) &&
                         r.value[|rows|] == Row(name, rows[i].email, course, hours))
  {
    match FirstRowOf(rows, name)
    case None => Err(UnknownStaff)
    case Some(i) => Ok(rows + [Row(name, rows[i].email, course, hours)])
  }

  /** An insert raises exactly the inserting member's total, by exactly the new
      row's hours. */
  lemma InsertCourseTotals(rows: seq<Row>, name: string, course: string, hours: int, n: string)
    requires HasName(rows, name)
    ensures InsertCourse(rows, name, course, hours).Ok?
    ensures Hours(InsertCourse(rows, name, course, hours).value, n) ==
      Hours(rows, n) + (if n == name then hours else 0)
  {
    var r := InsertCourse(rows, name, course, hours).value;
    assert r == rows + [r[|rows|]];
    HoursAppend(rows, [r[|rows|]], n);
    assert [r[|rows|]][..0] == [];
  }

  lemma InsertCourseKeepsEmailsConsistent(rows: seq<Row>, name: string, course: string, hours: int)
    requires EmailConsistent(rows)
    requires HasName(rows, name)
    ensures EmailConsistent(InsertCourse(rows, name, course, hours).value)
  {
    var r := InsertCourse(rows, name, course, hours).value;
    forall i, j | 0 <= i < |r| && 0 <= j < |r| && r[i].name == r[j].name
      ensures r[i].email == r[j].email
    {
      assert forall k :: 0 <= k < |rows| ==> r[k] == rows[k];
    }
  }

  /** The row the course menu addresses: this staff member, this course name. */
  predicate IsCourseRow(x: Row, name: string, course: string)
  {
    x.name == name && x.course == course
  }

  /** The row the course edit addresses (line 100): the first row of this
      staff member with this course name. */
  function FirstCourseRow(rows: seq<Row>, name: string, course: string): Option<nat>
  {
    FirstIndex(rows, (x: Row) => IsCourseRow(x, name, course))
  }

  /** "Editar curso": overwrite course name and hours of the FIRST row, in store
      order, of this staff member with this course name. */
  function EditCourse(rows: seq<Row>, name: string, course: string, newCourse: string, newHours: int)
    : (r: Result<seq<Row>>)
    ensures r.Err? <==> forall j :: 0 <= j < |rows| ==> !IsCourseRow(rows[j], name, course)
    ensures r.Err? ==> r.error == CourseNotFound
    ensures r.Ok? ==> |r.value| == |rows|
    ensures r.Ok? ==> (exists i :: 0 <= i < |rows| && IsCourseRow(rows[i], name, course) &&
                         (forall j :: 0 <= j < i ==> !IsCourseRow(rows[j], name, course)) &&
                         r.value[i] == rows[i].(course := newCourse, hours := newHours) &&
                         (forall j :: 0 <= j < |rows| && j != i ==> r.value[j] == rows[j]))
  {
    match FirstCourseRow(rows, name, course)
    case None => Err(CourseNotFound)
    case Some(i) => Ok(rows[i := rows[i].(course := newCourse, hours := newHours)])
  }

  /** An edit moves the member's total by the difference between the new hours and
      those of the first matching row, and leaves every other total alone. */
  lemma EditCourseTotals(rows: seq<Row>, name: string, course: string, newCourse: string, newHours: int,
                         i: nat, n: string)
    requires i < |rows| && IsCourseRow(rows[i], name, course)
    requires forall j :: 0 <= j < i ==> !IsCourseRow(rows[j], name, course)
    ensures EditCourse(rows, name, course, newCourse, newHours).Ok?
    ensures Hours(EditCourse(rows, name, course, newCourse, newHours).value, n) ==
      Hours(rows, n) + (if n == name then newHours - rows[i].hours else 0)
  {
    var r := EditCourse(rows, name, course, newCourse, newHours).value;
    assert r == rows[i := rows[i].(course := newCourse, hours := newHours)];
    HoursUpdate(rows, i, rows[i].(course := newCourse, hours := newHours), n);
  }

  lemma EditCourseKeepsEmailsConsistent(rows: seq<Row>, name: string, course: string, newCourse: string,
                                        newHours: int)
    requires EmailConsistent(rows)
    ensures var r := EditCourse(rows, name, course, newCourse, newHours);
      r.Ok? ==> EmailConsistent(r.value)
  {
    var r := EditCourse(rows, name, course, newCourse, newHours);
    if r.Ok? {
      assert forall k :: 0 <= k < |rows| ==> r.value[k].name == rows[k].name && r.value[k].email == rows[k].email;
    }
  }

  /** "Excluir curso": drop EVERY row of this staff member with this course name. */
  function DeleteCourse(rows: seq<Row>, name: string, course: string): (r: seq<Row>)
    ensures forall x :: x in r ==> x in rows && !IsCourseRow(x, name, course)
  {
    Keep(rows, (x: Row) => !IsCourseRow(x, name, course))
  }

  /** Deleting a course removes every copy of the matching rows and keeps every
      other row as often as it occurred; the survivors keep their order, as
      `Rows.KeepAppend` shows for any selection. */
  lemma DeleteCourseCorrect(rows: seq<Row>, name: string, course: string, x: Row)
    ensures multiset(DeleteCourse(rows, name, course))[x] ==
      if IsCourseRow(x, name, course) then 0 else multiset(rows)[x]
  {
    KeepMultiplicity(rows, (y: Row) => !IsCourseRow(y, name, course), x);
  }

  /** Edit is first-match, delete is all-matches: on two rows of the same course,
      an edit touches the first only, a delete removes both. */
  lemma EditFirstDeleteAll()
    ensures EditCourse([Row("A", "a@x", "X", 10), Row("A", "a@x", "X", 20)], "A", "X", "Y", 99)
      == Ok([Row("A", "a@x", "Y", 99), Row("A", "a@x", "X", 20)])
    ensures DeleteCourse([Row("A", "a@x", "X", 10), Row("A", "a@x", "X", 20)], "A", "X") == []
  {
    var rows := [Row("A", "a@x", "X", 10), Row("A", "a@x", "X", 20)];
    var edited := EditCourse(rows, "A", "X", "Y", 99);
    assert IsCourseRow(rows[0], "A", "X");
    assert edited.value[0] == Row("A", "a@x", "Y", 99) && edited.value[1] == rows[1];
    assert edited.value == [Row("A", "a@x", "Y", 99), Row("A", "a@x", "X", 20)];
    assert rows[..1] == [rows[0]];
    assert rows[..1][..0] == [];
  }

  /** Line 135: every row named `oldName` is renamed `newName`. */
  function Rename(rows: seq<Row>, oldName: string, newName: string): (r: seq<Row>)
    ensures |r| == |rows|
    ensures forall i :: 0 <= i < |rows| && rows[i].name == oldName ==> r[i] == rows[i].(name := newName)
    ensures forall i :: 0 <= i < |rows| && rows[i].name != oldName ==> r[i] == rows[i]
  {
    seq(|rows|, i requires 0 <= i < |rows| => if rows[i].name == oldName then rows[i].(name := newName) else rows[i])
  }

  /** Line 136: every row named `name` gets `newEmail`. */
  function SetEmail(rows: seq<Row>, name: string, newEmail: string): (r: seq<Row>)
    ensures |r| == |rows|
    ensures forall i :: 0 <= i < |rows| && rows[i].name == name ==> r[i] == rows[i].(email := newEmail)
    ensures forall i :: 0 <= i < |rows| && rows[i].name != name ==> r[i] == rows[i]
  {
    seq(|rows|, i requires 0 <= i < |rows| => if rows[i].name == name then rows[i].(email := newEmail) else rows[i])
  }

  /** "Editar servidor": rename, then give every row that now carries the new name
      the new email — rows that already carried the new name included. */
  function EditStaff(rows: seq<Row>, oldName: string, newName: string, newEmail: string): (r: seq<Row>)
    ensures |r| == |rows|
    ensures forall i :: 0 <= i < |rows| && rows[i].name == oldName ==> r[i] == rows[i].(name := newName, email := newEmail)
    ensures forall i :: 0 <= i < |rows| && rows[i].name == newName ==> r[i] == rows[i].(email := newEmail)
    ensures forall i :: 0 <= i < |rows| && rows[i].name != oldName && rows[i].name != newName ==> r[i] == rows[i]
  {
    SetEmail(Rename(rows, oldName, newName), newName, newEmail)
  }

  /** After a staff edit every row named `newName` has the new email, nobody is called
      `oldName` any more (unless nothing was renamed), and, the rows of an existing
      `newName` merging with the renamed ones, `newName`'s total is the sum of both totals
      while every other total stays as it was. */
  lemma {:induction false} EditStaffTotals(rows: seq<Row>, oldName: string, newName: string, newEmail: string, n: string)
    requires oldName != newName
    ensures var r := EditStaff(rows, oldName, newName, newEmail);
      (forall i :: 0 <= i < |r| && r[i].name == newName ==> r[i].email == newEmail) &&
      !HasName(r, oldName) &&
      Hours(r, n) == (if n == newName then Hours(rows, oldName) + Hours(rows, newName)
                      else if n == oldName then 0
                      else Hours(rows, n))
  {
    var r := EditStaff(rows, oldName, newName, newEmail);
    if rows != [] {
      var init := rows[..|rows| - 1];
      EditStaffTotals(init, oldName, newName, newEmail, n);
      var ri := EditStaff(init, oldName, newName, newEmail);
      assert r[..|r| - 1] == ri;
    }
  }

  /** A staff edit that keeps the name only changes that member's email: every
      name and every total stays as it was. */
  lemma {:induction false} EditStaffEmailOnly(rows: seq<Row>, name: string, newEmail: string, n: string)
    ensures var r := EditStaff(rows, name, name, newEmail);
      (forall i :: 0 <= i < |r| ==> r[i].name == rows[i].name) &&
      (forall i :: 0 <= i < |r| && r[i].name == name ==> r[i].email == newEmail) &&
      Hours(r, n) == Hours(rows, n)
  {
    if rows != [] {
      var r := EditStaff(rows, name, name, newEmail);
      var init := rows[..|rows| - 1];
      EditStaffEmailOnly(init, name, newEmail, n);
      assert r[..|r| - 1] == EditStaff(init, name, name, newEmail);
    }
  }

  /** After renaming an existing staff member, `calcular_status` shows no line
      under the old name and one line under the new name, holding the old and
      the new name's hours together. */
  lemma EditStaffMergesLines(rows: seq<Row>, oldName: string, newName: string, newEmail: string)
    requires oldName != newName && HasName(rows, oldName)
    ensures var lines := CalcStatus(EditStaff(rows, oldName, newName, newEmail));
      (forall i :: 0 <= i < |lines| ==> lines[i].name != oldName) &&
      exists i :: 0 <= i < |lines| &&
        lines[i].name == newName && lines[i].total == Hours(rows, oldName) + Hours(rows, newName)
  {
    var r := EditStaff(rows, oldName, newName, newEmail);
    EditStaffTotals(rows, oldName, newName, newEmail, newName);
    EditStaffTotals(rows, oldName, newName, newEmail, oldName);
    var i :| 0 <= i < |rows| && rows[i].name == oldName;
    assert r[i].name == newName;
    LineOfEveryName(r, newName);
  }

  lemma EditStaffKeepsEmailsConsistent(rows: seq<Row>, oldName: string, newName: string, newEmail: string)
    requires EmailConsistent(rows)
    ensures EmailConsistent(EditStaff(rows, oldName, newName, newEmail))
  {
  }

  /** "Excluir servidor": drop every row of this staff member. */
  function DeleteStaff(rows: seq<Row>, name: string): (r: seq<Row>)
    ensures !HasName(r, name)
  {
    var r := Keep(rows, (x: Row) => x.name != name);
    assert forall i :: 0 <= i < |r| ==> r[i] in r;
    r
  }

  /** Deleting a staff member keeps every row of everyone else, as often as it
      occurred (in order, by `Rows.KeepAppend`), and every other total. */
  lemma DeleteStaffCorrect(rows: seq<Row>, name: string, x: Row, n: string)
    ensures multiset(DeleteStaff(rows, name))[x] == if x.name == name then 0 else multiset(rows)[x]
    ensures n != name ==> Hours(DeleteStaff(rows, name), n) == Hours(rows, n)
  {
    KeepMultiplicity(rows, (y: Row) => y.name != name, x);
    if n != name {
      DeleteStaffHours(rows, name, n);
    }
  }

  lemma {:induction false} DeleteStaffHours(rows: seq<Row>, name: string, n: string)
    requires n != name
    ensures Hours(DeleteStaff(rows, name), n) == Hours(rows, n)
  {
    if rows != [] {
      var init := rows[..|rows| - 1];
      var last := rows[|rows| - 1];
      DeleteStaffHours(init, name, n);
      var kept := DeleteStaff(init, name);
      if last.name != name {
        assert DeleteStaff(rows, name) == kept + [last];
        assert (kept + [last])[..|kept|] == kept;
      } else {
        assert DeleteStaff(rows, name) == kept;
      }
    }
  }

  lemma DeletionsKeepEmailsConsistent(rows: seq<Row>, name: string, course: string)
    requires EmailConsistent(rows)
    ensures EmailConsistent(DeleteCourse(rows, name, course))
    ensures EmailConsistent(DeleteStaff(rows, name))
  {
    forall keep: Row -> bool ensures EmailConsistent(Keep(rows, keep)) {
      var r := Keep(rows, keep);
      forall i, j | 0 <= i < |r| && 0 <= j < |r| && r[i].name == r[j].name
        ensures r[i].email == r[j].email
      {
        assert r[i] in r && r[j] in r;
      }
    }
  }
}
