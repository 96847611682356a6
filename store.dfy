/** The staff menu's view of the store: the table is loaded, one branch of the
    menu changes it, and the whole table is written back. */
module Store {
  import opened Rows
  import opened Mutations

  /** What a menu action reports: the table was saved, or a lookup failed and
      nothing was written. */
  datatype Outcome = Saved | Rejected(error: LedgerError)

  /** The enrollment table as one menu action holds it between `carregar_dados`
      and `salvar_dados`. */
  class Ledger {
    var rows: seq<Row>

    /** `carregar_dados()`: the table as stored. */
    constructor (stored: seq<Row>)
      ensures rows == stored
    {
      rows := stored;
    }

    /** "Inserir curso" (lines 85-87). */
    method InsertCourse(name: string, course: string, hours: int) returns (outcome: Outcome)
      modifies this
      ensures var r := Mutations.InsertCourse(old(rows), name, course, hours);
        if r.Ok? then outcome == Saved && rows == r.value
        else outcome == Rejected(UnknownStaff) && rows == old(rows)
      ensures EmailConsistent(old(rows)) ==> EmailConsistent(rows)
    {
      var first := FirstRowOf(rows, name);
      if first.None? {
        return Rejected(UnknownStaff);
      }
      var email := rows[first.value].email;
      if EmailConsistent(rows) {
        InsertCourseKeepsEmailsConsistent(rows, name, course, hours);
      }
      rows := rows + [Row(name, email, course, hours)];
      outcome := Saved;
    }

    /** "Editar curso" (lines 100, 107-108): two cell writes on the first matching row. */
    method EditCourse(name: string, course: string, newCourse: string, newHours: int) returns (outcome: Outcome)
      modifies this
      ensures var r := Mutations.EditCourse(old(rows), name, course, newCourse, newHours);
        if r.Ok? then outcome == Saved && rows == r.value
        else outcome == Rejected(CourseNotFound) && rows == old(rows)
      ensures EmailConsistent(old(rows)) ==> EmailConsistent(rows)
    {
      if EmailConsistent(rows) {
        EditCourseKeepsEmailsConsistent(rows, name, course, newCourse, newHours);
      }
      var found := FirstCourseRow(rows, name, course);
      if found.None? {
        return Rejected(CourseNotFound);
      }
      var i := found.value;
      rows := rows[i := rows[i].(course := newCourse)];
      rows := rows[i := rows[i].(hours := newHours)];
      outcome := Saved;
    }

    /** "Excluir curso" (line 123). */
    method DeleteCourse(name: string, course: string)
      modifies this
      ensures rows == Mutations.DeleteCourse(old(rows), name, course)
      ensures EmailConsistent(old(rows)) ==> EmailConsistent(rows)
    {
      if EmailConsistent(rows) {
        DeletionsKeepEmailsConsistent(rows, name, course);
      }
      rows := Mutations.DeleteCourse(rows, name, course);
    }

    /** "Editar servidor" (lines 128, 135-136): the current email is read first,
        which fails on a name without rows; then the two column writes. */
    method EditStaff(oldName: string, newName: string, newEmail: string) returns (outcome: Outcome)
      modifies this
      ensures if HasName(old(rows), oldName) then outcome == Saved && rows == Mutations.EditStaff(old(rows), oldName, newName, newEmail)
              else outcome == Rejected(UnknownStaff) && rows == old(rows)
      ensures EmailConsistent(old(rows)) ==> EmailConsistent(rows)
    {
      var first := FirstRowOf(rows, oldName);
      if first.None? {
        return Rejected(UnknownStaff);
      }
      if EmailConsistent(rows) {
        EditStaffKeepsEmailsConsistent(rows, oldName, newName, newEmail);
      }
      rows := Rename(rows, oldName, newName);
      rows := SetEmail(rows, newName, newEmail);
      outcome := Saved;
    }

    /** "Excluir servidor" (line 144). */
    method DeleteStaff(name: string)
      modifies this
      ensures rows == Mutations.DeleteStaff(old(rows), name)
      ensures EmailConsistent(old(rows)) ==> EmailConsistent(rows)
    {
      if EmailConsistent(rows) {
        DeletionsKeepEmailsConsistent(rows, name, "");
      }
      rows := Mutations.DeleteStaff(rows, name);
    }
  }
}
