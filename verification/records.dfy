/** The `students` row shared by the enrollment roster, the teacher roster and the student
    login, with the helpers every component uses on it. */
module Records {
  import opened Options
  import Seqs

  type StudentId = nat
  type ClassId = nat

  /** A `students` row. `points` is the nullable `total_points` column; `createdAt` is the
      server-assigned `created_at` stamp. */
  datatype StudentRow = StudentRow(
    id: StudentId,
    classId: ClassId,
    name: string,
    code: string,
    points: Option<int>,
    createdAt: int)

  /** `s.total_points || 0`: a missing balance reads as zero. */
  function PointsOf(s: StudentRow): (p: int)
    ensures s.points.None? ==> p == 0
    ensures s.points.Some? ==> p == s.points.value
  {
    s.points.GetOr(0)
  }

  function CreatedAt(s: StudentRow): int {
    s.createdAt
  }

  /** `rows.map(s => s.id)`. */
  function Ids(rows: seq<StudentRow>): (ids: seq<StudentId>)
    ensures |ids| == |rows|
    ensures forall i :: 0 <= i < |rows| ==> ids[i] == rows[i].id
  {
    seq(|rows|, i requires 0 <= i < |rows| => rows[i].id)
  }

  /** No two rows share an id (the table's primary key). */
  ghost predicate UniqueIds(rows: seq<StudentRow>) {
    forall i, j :: 0 <= i < j < |rows| ==> rows[i].id != rows[j].id
  }

  /** Keeping some rows of a roster keeps their ids unique. */
  lemma {:induction false} FilterUniqueIds(rows: seq<StudentRow>, keep: StudentRow -> bool)
    requires UniqueIds(rows)
    ensures UniqueIds(Seqs.Filter(rows, keep))
  {
    if |rows| > 0 {
      var init := rows[..|rows| - 1];
      var last := rows[|rows| - 1];
      FilterUniqueIds(init, keep);
      var f := Seqs.Filter(init, keep);
      Seqs.FilterMembers(init, keep);
      forall i | 0 <= i < |f| ensures f[i].id != last.id {
        assert f[i] in f;
        var m :| 0 <= m < |init| && init[m] == f[i];
        assert rows[m] == f[i];
      }
    }
  }
}
