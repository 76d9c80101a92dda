/** The enrollment roster (`src/components/StudentManager.jsx`): students of one class listed
    oldest first, and `handleAddStudent`, which refuses a blank name, draws an 8-character login
    code, inserts `{class_id, name, student_code}` and, on success, clears the name field and
    reloads the roster. */
module Enrollment {
  import opened Options
  import opened Records
  import Seqs
  import Text
  import Codes

  /** The `students` table: rows in insertion order, the id and `created_at` stamp the next
      insert receives. */
  datatype Table = Table(rows: seq<StudentRow>, nextId: StudentId, clock: int)

  /** Rows are stamped in insertion order, ids are unique and below the next id, and no stamp is
      ahead of the clock. */
  ghost predicate Valid(t: Table) {
    && Seqs.Ascending(t.rows, CreatedAt)
    && UniqueIds(t.rows)
    && (forall i :: 0 <= i < |t.rows| ==> t.rows[i].id < t.nextId && t.rows[i].createdAt <= t.clock)
  }

  /** The row sent by `handleAddStudent`. */
  datatype StudentInsert = StudentInsert(classId: ClassId, name: string, code: string)

  /** Inserting a row: the store assigns the next id and the current stamp; the balance column is
      left unset. */
  function Insert(t: Table, rec: StudentInsert): (r: Table)
    ensures |r.rows| == |t.rows| + 1 && r.rows[..|t.rows|] == t.rows
    ensures var row := r.rows[|t.rows|];
            row.classId == rec.classId && row.name == rec.name && row.code == rec.code
            && row.points == None
  {
    var row := StudentRow(t.nextId, rec.classId, rec.name, rec.code, None, t.clock);
    Table(t.rows + [row], t.nextId + 1, t.clock + 1)
  }

  lemma InsertValid(t: Table, rec: StudentInsert)
    requires Valid(t)
    ensures Valid(Insert(t, rec))
  {
  }

  predicate InClass(classId: ClassId, s: StudentRow) {
    s.classId == classId
  }

  /** `fetchStudents`: the class's rows ordered by `created_at` ascending. */
  function ListStudents(t: Table, classId: ClassId): (r: seq<StudentRow>)
    ensures forall s :: s in r ==> s.classId == classId && s in t.rows
    ensures forall s :: s in t.rows && s.classId == classId ==> s in r
  {
    Seqs.FilterMembers(t.rows, s => InClass(classId, s));
    Seqs.Filter(t.rows, s => InClass(classId, s))
  }

  /** The listed roster is ordered oldest first. */
  lemma ListedOldestFirst(t: Table, classId: ClassId)
    requires Valid(t)
    ensures Seqs.Ascending(ListStudents(t, classId), CreatedAt)
  {
    Seqs.FilterAscending(t.rows, s => InClass(classId, s), CreatedAt);
  }

  /** The component's state: the name field and the listed roster. */
  datatype Screen = Screen(studentName: string, students: seq<StudentRow>)

  datatype AddStatus = BlankName | Added | AddFailed

  datatype AddOutcome = AddOutcome(status: AddStatus, screen: Screen, table: Table, sent: Option<StudentInsert>)

  /** `handleAddStudent`. `insertOk` is the store's answer to the insert and `fetchOk` its
      answer to the reload that follows; a failed reload leaves `data` null and the roster
      empty (`data || []`). */
  function AddStudent(screen: Screen, classId: ClassId, draws: seq<real>, insertOk: bool,
                      fetchOk: bool, t: Table): (r: AddOutcome)
    requires Codes.LoginCodeLength <= |draws| && Codes.AllRandom(draws)
    // a blank name is refused before any code is drawn or row sent
    ensures r.status == BlankName <==> Text.IsBlank(screen.studentName)
    ensures r.status == BlankName ==> r.screen == screen && r.table == t && r.sent == None
    // otherwise the row carries the class, the name as typed and a fresh 8-character code
    ensures r.status != BlankName ==>
              && r.sent == Some(StudentInsert(classId, screen.studentName, Codes.LoginCode(draws)))
              && |r.sent.value.code| == 8
              && forall k :: 0 <= k < 8 ==> Codes.IsCodeChar(r.sent.value.code[k])
    // an insert error keeps the typed name and changes nothing
    ensures r.status == AddFailed <==> !Text.IsBlank(screen.studentName) && !insertOk
    ensures r.status == AddFailed ==> r.screen == screen && r.table == t
    // success clears the name and stores exactly one more row
    ensures r.status == Added ==>
              && r.screen.studentName == ""
              && r.table == Insert(t, r.sent.value)
              && (fetchOk ==> r.screen.students == ListStudents(r.table, classId))
              && (!fetchOk ==> r.screen.students == [])
  {
    if Text.IsBlank(screen.studentName) then
      AddOutcome(BlankName, screen, t, None)
    else
      var rec := StudentInsert(classId, screen.studentName, Codes.LoginCode(draws));
      if !insertOk then
        AddOutcome(AddFailed, screen, t, Some(rec))
      else
        var t' := Insert(t, rec);
        var listed := if fetchOk then ListStudents(t', classId) else [];
        AddOutcome(Added, Screen("", listed), t', Some(rec))
  }

  /** After a successful add and reload, the roster is the class's previous roster with the new
      student appended last, still oldest first. */
  lemma AddedStudentListedLast(screen: Screen, classId: ClassId, draws: seq<real>, t: Table)
    requires Codes.LoginCodeLength <= |draws| && Codes.AllRandom(draws)
    requires Valid(t)
    requires !Text.IsBlank(screen.studentName)
    ensures var r := AddStudent(screen, classId, draws, true, true, t);
            && Valid(r.table)
            && |r.screen.students| == |ListStudents(t, classId)| + 1
            && r.screen.students[..|ListStudents(t, classId)|] == ListStudents(t, classId)
            && (var s := r.screen.students[|ListStudents(t, classId)|];
                s.classId == classId && s.name == screen.studentName
                && s.code == Codes.LoginCode(draws) && s.points == None)
            && Seqs.Ascending(r.screen.students, CreatedAt)
  {
    var rec := StudentInsert(classId, screen.studentName, Codes.LoginCode(draws));
    var t' := Insert(t, rec);
    assert t'.rows == t.rows + [t'.rows[|t.rows|]];
    Seqs.FilterAppend(t.rows, t'.rows[|t.rows|], s => InClass(classId, s));
    InsertValid(t, rec);
    ListedOldestFirst(t', classId);
  }
}
