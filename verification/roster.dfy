/** The teacher's roster (`teacher/StudentManager.jsx`) apart from points: the listed students,
    the selected ids, card clicks that toggle one id, the select-all checkbox, deleting the
    student picked in the confirmation dialog, and adding a student with balance 0. */
module TeacherRoster {
  import opened Options
  import opened Records
  import Seqs
  import Text

  /** The component's roster state: the listed students, the selected ids in click order, and
      the student awaiting delete confirmation. */
  datatype Roster = Roster(students: seq<StudentRow>, selected: seq<StudentId>, deleteTarget: Option<StudentRow>)

  /** Ids are unique, no id is selected twice, and only listed students are selected. */
  ghost predicate Valid(students: seq<StudentRow>, selected: seq<StudentId>) {
    && UniqueIds(students)
    && Seqs.NoDup(selected)
    && forall i :: 0 <= i < |selected| ==> selected[i] in Ids(students)
  }

  /** Every listed student is selected. */
  ghost predicate AllSelected(students: seq<StudentRow>, selected: seq<StudentId>) {
    forall i :: 0 <= i < |students| ==> students[i].id in selected
  }

  /** A card click: `prev.includes(id) ? prev.filter(x => x !== id) : [...prev, id]`. Exactly
      the clicked id changes membership. */
  function ToggleCard(selected: seq<StudentId>, id: StudentId): (r: seq<StudentId>)
    ensures id in r <==> id !in selected
    ensures forall x :: x != id ==> (x in r <==> x in selected)
    ensures Seqs.NoDup(selected) ==> Seqs.NoDup(r)
  {
    if id in selected then
      Seqs.FilterNoDup(selected, x => x != id);
      Seqs.FilterMembers(selected, x => x != id);
      Seqs.Filter(selected, x => x != id)
    else selected + [id]
  }

  /** Clicking a card twice restores the selection. */
  lemma ToggleTwice(selected: seq<StudentId>, id: StudentId)
    requires Seqs.NoDup(selected)
    ensures id !in selected ==> ToggleCard(ToggleCard(selected, id), id) == selected
    ensures id in selected ==> (forall x :: x in ToggleCard(ToggleCard(selected, id), id) <==> x in selected)
  {
    if id !in selected {
      Seqs.FilterAppend(selected, id, x => x != id);
      Seqs.FilterAll(selected, x => x != id);
    }
  }

  /** Clicking a listed student's card keeps the selection valid. */
  lemma ToggleCardValid(students: seq<StudentRow>, selected: seq<StudentId>, k: nat)
    requires Valid(students, selected) && k < |students|
    ensures Valid(students, ToggleCard(selected, students[k].id))
  {
    var r := ToggleCard(selected, students[k].id);
    forall i | 0 <= i < |r| ensures r[i] in Ids(students) {
      assert r[i] == students[k].id || r[i] in selected;
      assert Ids(students)[k] == students[k].id;
    }
  }

  /** `toggleSelectAll`: clear the selection when its length equals the roster's, otherwise
      select every listed id. */
  function ToggleSelectAll(students: seq<StudentRow>, selected: seq<StudentId>): (r: seq<StudentId>)
    ensures r == [] || (|r| == |students| && forall i :: 0 <= i < |students| ==> r[i] == students[i].id)
  {
    if |selected| == |students| then [] else Ids(students)
  }

  /** On a valid selection the length test is exact: it sees "all selected" exactly when every
      listed student is selected. */
  lemma SelectAllTestExact(students: seq<StudentRow>, selected: seq<StudentId>)
    requires Valid(students, selected)
    ensures |selected| == |students| <==> AllSelected(students, selected)
  {
    var ids := Ids(students);
    var sel := Seqs.Elements(selected);
    var all := Seqs.Elements(ids);
    Seqs.NoDupCardinality(selected);
    assert Seqs.NoDup(ids) by {
      forall i, j | 0 <= i < j < |ids| ensures ids[i] != ids[j] {
        assert ids[i] == students[i].id && ids[j] == students[j].id;
      }
    }
    Seqs.NoDupCardinality(ids);
    assert sel <= all;
    if |selected| == |students| {
      SubsetOfSameSize(sel, all);
      forall i | 0 <= i < |students| ensures students[i].id in selected {
        assert ids[i] in all;
      }
    }
    if AllSelected(students, selected) {
      forall x | x in all ensures x in sel {
        var i :| 0 <= i < |ids| && ids[i] == x;
        assert students[i].id in selected;
      }
      assert sel == all;
    }
  }

  lemma SubsetOfSameSize<T>(a: set<T>, b: set<T>)
    requires a <= b && |a| == |b|
    ensures a == b
  {
    assert b == a + (b - a) && a * (b - a) == {};
  }

  /** The select-all checkbox clears a full selection and otherwise selects every listed
      student, leaving a valid selection either way. */
  lemma SelectAllToggles(students: seq<StudentRow>, selected: seq<StudentId>)
    requires Valid(students, selected)
    ensures AllSelected(students, selected) ==> ToggleSelectAll(students, selected) == []
    ensures !AllSelected(students, selected) ==> AllSelected(students, ToggleSelectAll(students, selected))
    ensures Valid(students, ToggleSelectAll(students, selected))
  {
    SelectAllTestExact(students, selected);
    var r := ToggleSelectAll(students, selected);
    if !AllSelected(students, selected) {
      forall i | 0 <= i < |students| ensures students[i].id in r {
        assert r[i] == students[i].id;
      }
    }
  }

  /** The select-all checkbox's `checked` state: a non-empty roster and a selection as long. */
  predicate SelectAllChecked(students: seq<StudentRow>, selected: seq<StudentId>) {
    |students| > 0 && |selected| == |students|
  }

  /** On a valid selection the checkbox is ticked exactly when there are students and all of
      them are selected. */
  lemma CheckboxShowsAllSelected(students: seq<StudentRow>, selected: seq<StudentId>)
    requires Valid(students, selected)
    ensures SelectAllChecked(students, selected) <==> |students| > 0 && AllSelected(students, selected)
  {
    SelectAllTestExact(students, selected);
  }

  predicate NotId(id: StudentId, s: StudentRow) {
    s.id != id
  }

  /** `handleDeleteStudent`, with the store's answer `deleteOk`. Without a pending target
      nothing happens; otherwise the dialog's target is cleared and, only when the store
      confirms, that id leaves both the roster and the selection. */
  function DeleteStudent(roster: Roster, deleteOk: bool): (r: Roster)
    ensures roster.deleteTarget.None? ==> r == roster
    ensures roster.deleteTarget.Some? ==> r.deleteTarget == None
    ensures roster.deleteTarget.Some? && !deleteOk ==>
              r.students == roster.students && r.selected == roster.selected
    ensures roster.deleteTarget.Some? && deleteOk ==>
              var gone := roster.deleteTarget.value.id;
              && (forall s :: s in r.students <==> s in roster.students && s.id != gone)
              && (forall x :: x in r.selected <==> x in roster.selected && x != gone)
              && |r.students| <= |roster.students|
  {
    match roster.deleteTarget
    case None => roster
    case Some(target) =>
      if !deleteOk then roster.(deleteTarget := None)
      else
        var students := Seqs.Filter(roster.students, s => NotId(target.id, s));
        var selected := Seqs.Filter(roster.selected, x => x != target.id);
        Seqs.FilterMembers(roster.students, s => NotId(target.id, s));
        Seqs.FilterMembers(roster.selected, x => x != target.id);
        Roster(students, selected, None)
  }

  /** Deleting a listed student removes exactly one row, leaves the other rows in their
      order, and keeps the selection valid. */
  lemma DeleteListed(roster: Roster, k: nat)
    requires Valid(roster.students, roster.selected)
    requires k < |roster.students| && roster.deleteTarget == Some(roster.students[k])
    ensures var r := DeleteStudent(roster, true);
            && r.students == roster.students[..k] + roster.students[k + 1..]
            && Valid(r.students, r.selected)
  {
    var gone := roster.students[k].id;
    var xs := roster.students;
    forall j | 0 <= j < |xs| && j != k ensures NotId(gone, xs[j]) {
      assert Ids(xs)[j] == xs[j].id;
    }
    FilterSkipsOne(xs, s => NotId(gone, s), k);
    FilterUniqueIds(xs, s => NotId(gone, s));
    var r := DeleteStudent(roster, true);
    Seqs.FilterNoDup(roster.selected, x => x != gone);
    forall i | 0 <= i < |r.selected| ensures r.selected[i] in Ids(r.students) {
      assert r.selected[i] in r.selected;
      StillListed(xs, k, r.selected[i]);
    }
  }

  /** An id listed in the roster, other than the deleted student's, is still listed after the
      deletion. */
  lemma StillListed(xs: seq<StudentRow>, k: nat, x: StudentId)
    requires k < |xs| && x in Ids(xs) && x != xs[k].id
    ensures x in Ids(xs[..k] + xs[k + 1..])
  {
    var rest := xs[..k] + xs[k + 1..];
    var j :| 0 <= j < |xs| && Ids(xs)[j] == x;
    var m := if j < k then j else j - 1;
    assert rest[m] == xs[j];
    assert Ids(rest)[m] == x;
  }

  /** Filtering out the one element `keep` rejects removes just that position. */
  lemma FilterSkipsOne<T>(xs: seq<T>, keep: T -> bool, k: nat)
    requires k < |xs| && !keep(xs[k])
    requires forall j :: 0 <= j < |xs| && j != k ==> keep(xs[j])
    ensures Seqs.Filter(xs, keep) == xs[..k] + xs[k + 1..]
  {
    KeptAround(xs, keep, k);
    FilterDropsAt(xs, keep, k);
  }

  /** Everything before and after position `k` is kept. */
  lemma KeptAround<T>(xs: seq<T>, keep: T -> bool, k: nat)
    requires k < |xs|
    requires forall j :: 0 <= j < |xs| && j != k ==> keep(xs[j])
    ensures Seqs.Filter(xs[..k], keep) == xs[..k]
    ensures Seqs.Filter(xs[k + 1..], keep) == xs[k + 1..]
  {
    var pre := xs[..k];
    var post := xs[k + 1..];
    forall j | 0 <= j < |pre| ensures keep(pre[j]) {
      assert pre[j] == xs[j];
    }
    forall j | 0 <= j < |post| ensures keep(post[j]) {
      assert post[j] == xs[k + 1 + j];
    }
    Seqs.FilterAll(pre, keep);
    Seqs.FilterAll(post, keep);
  }

  /** Filtering around a rejected element filters the two sides separately. */
  lemma FilterDropsAt<T>(xs: seq<T>, keep: T -> bool, k: nat)
    requires k < |xs| && !keep(xs[k])
    ensures Seqs.Filter(xs, keep) == Seqs.Filter(xs[..k], keep) + Seqs.Filter(xs[k + 1..], keep)
  {
    var pre := xs[..k];
    var post := xs[k + 1..];
    var upTo := pre + [xs[k]];
    assert xs == upTo + post by {
      assert xs[..k + 1] == upTo;
    }
    Seqs.FilterConcat(upTo, post, keep);
    Seqs.FilterAppend(pre, xs[k], keep);
  }

  /** The row `handleAddStudent` sends: the class, the name as typed, the code, balance 0. */
  datatype StudentInsert = StudentInsert(classId: ClassId, name: string, code: string, points: int)

  /** The store's answer to the insert: the stored row's id and stamp, or an error. */
  datatype AddReply = AddedRow(id: StudentId, createdAt: int) | AddError

  datatype AddOutcome = AddOutcome(studentName: string, students: seq<StudentRow>, sent: Option<StudentInsert>)

  /** `handleAddStudent` with the login code supplied by the caller. A blank name does nothing;
      a stored row is appended to the roster and the name field cleared; an error keeps both. */
  function AddStudent(studentName: string, students: seq<StudentRow>, classId: ClassId, code: string,
                      reply: AddReply): (r: AddOutcome)
    ensures Text.IsBlank(studentName) ==> r == AddOutcome(studentName, students, None)
    ensures !Text.IsBlank(studentName) ==> r.sent == Some(StudentInsert(classId, studentName, code, 0))
    ensures !Text.IsBlank(studentName) && reply.AddedRow? ==>
              && r.studentName == ""
              && |r.students| == |students| + 1 && r.students[..|students|] == students
              && r.students[|students|] == StudentRow(reply.id, classId, studentName, code, Some(0), reply.createdAt)
              && PointsOf(r.students[|students|]) == 0
    ensures !Text.IsBlank(studentName) && reply.AddError? ==>
              r.studentName == studentName && r.students == students
  {
    if Text.IsBlank(studentName) then AddOutcome(studentName, students, None)
    else
      var rec := StudentInsert(classId, studentName, code, 0);
      match reply
      case AddError => AddOutcome(studentName, students, Some(rec))
      case AddedRow(id, createdAt) =>
        var row := StudentRow(id, rec.classId, rec.name, rec.code, Some(rec.points), createdAt);
        AddOutcome("", students + [row], Some(rec))
  }

  /** Adding a student under a fresh id keeps the selection valid. */
  lemma AddKeepsValid(studentName: string, students: seq<StudentRow>, selected: seq<StudentId>,
                      classId: ClassId, code: string, reply: AddReply)
    requires Valid(students, selected)
    requires reply.AddedRow? ==> reply.id !in Ids(students)
    ensures Valid(AddStudent(studentName, students, classId, code, reply).students, selected)
  {
    var r := AddStudent(studentName, students, classId, code, reply).students;
    if r != students {
      forall i | 0 <= i < |selected| ensures selected[i] in Ids(r) {
        var j :| 0 <= j < |students| && Ids(students)[j] == selected[i];
        assert Ids(r)[j] == selected[i];
      }
      forall i | 0 <= i < |students| ensures students[i].id != reply.id {
        assert Ids(students)[i] == students[i].id;
      }
    }
  }
}
