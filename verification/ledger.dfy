/** Points in the teacher's roster (`teacher/StudentManager.jsx`): `handleBulkProcessPoints`
    and the per-student history. A bulk adjustment is refused for an empty selection or a blank
    reason; otherwise give/take and the amount make a signed delta, the selected students'
    listed balances move by it at once, and for every selected student the store receives two
    writes: the balance `(local total_points || 0) + delta`, then a `point_logs` row
    `{student_id, amount: delta, reason}`. If any write fails the listed roster is put back as
    it was, but the writes that did succeed stay in the store. */
module PointLedger {
  import opened Options
  import opened Records
  import Seqs
  import Text
  import Numbers
  import TeacherRoster

  datatype Direction = Give | Take

  /** The point dialog's fields. */
  datatype PointForm = PointForm(direction: Direction, amount: int, reason: string)

  const InitialPointForm: PointForm := PointForm(Give, 10, "참여도가 높아요! 🌟")

  /** An edit of the amount field: `parseInt(value) || 0`; direction and reason are kept. */
  function EditAmount(form: PointForm, input: string): (r: PointForm)
    ensures r.direction == form.direction && r.reason == form.reason
    ensures r.amount != 0 ==> Numbers.ParseInt(input) == Some(r.amount)
    ensures Numbers.ParseInt(input).Some? ==> r.amount == Numbers.ParseInt(input).value
    ensures Numbers.ParseInt(input).None? ==> r.amount == 0
  {
    form.(amount := Numbers.NumberInput(input))
  }

  /** `type === 'give' ? amount : -amount`: the amount's magnitude, added for a give and taken
      away otherwise. */
  function SignedAmount(form: PointForm): (d: int)
    ensures d == form.amount || d == -form.amount
    ensures form.amount > 0 ==> (d > 0 <==> form.direction == Give)
    // the field accepts negative numbers too: a give keeps the amount's sign, a take flips it
    ensures form.amount != 0 ==> (d == form.amount <==> form.direction == Give)
  {
    if form.direction == Give then form.amount else -form.amount
  }

  /** The dialog's defaults give 10 points with a non-blank reason, so submitting them as they
      are passes the reason check. */
  lemma DefaultFormGivesTen()
    ensures SignedAmount(InitialPointForm) == 10 && !Text.IsBlank(InitialPointForm.reason)
  {
    var reason := InitialPointForm.reason;
    assert |reason| > 0 && reason[0] == '참';
    Text.SolidStartNotBlank(reason);
  }

  /** A `point_logs` row. */
  datatype PointLog = PointLog(studentId: StudentId, amount: int, reason: string, createdAt: int)

  function LogAt(l: PointLog): int {
    l.createdAt
  }

  /** The part of the store the ledger touches: each student's stored `total_points`, the
      `point_logs` rows in insertion order, and the stamp the next log row receives. */
  datatype Store = Store(balances: map<StudentId, int>, logs: seq<PointLog>, clock: int)

  ghost predicate Valid(store: Store) {
    && Seqs.Ascending(store.logs, LogAt)
    && forall i :: 0 <= i < |store.logs| ==> store.logs[i].createdAt <= store.clock
  }

  /** The sum of the amounts logged for `id`. */
  function LogSum(logs: seq<PointLog>, id: StudentId): int {
    if |logs| == 0 then 0
    else
      var last := logs[|logs| - 1];
      LogSum(logs[..|logs| - 1], id) + (if last.studentId == id then last.amount else 0)
  }

  lemma LogSumAppend(logs: seq<PointLog>, l: PointLog, id: StudentId)
    ensures LogSum(logs + [l], id) == LogSum(logs, id) + (if l.studentId == id then l.amount else 0)
  {
    assert (logs + [l])[..|logs|] == logs;
  }

  /** How far a stored balance is from the sum of its log: zero when the two agree. */
  function Drift(store: Store, id: StudentId): int
    requires id in store.balances
  {
    store.balances[id] - LogSum(store.logs, id)
  }

  /** The store's answer for one student: both writes succeed, the balance update fails (and
      the log insert is never sent), or the update succeeds and the log insert fails. */
  datatype WriteResult = Written | UpdateFailed | LogFailed

  /** One student's two writes. The balance written is the roster's local value plus `delta`;
      an update matching no row changes nothing. */
  function WriteTarget(store: Store, t: StudentRow, delta: int, reason: string, result: WriteResult): (r: Store)
    ensures r.balances.Keys == store.balances.Keys
    // only a completed pair of writes appends a log row, stamped and then advancing the clock
    ensures result == Written ==> r.logs == store.logs + [PointLog(t.id, delta, reason, store.clock)]
                                  && r.clock == store.clock + 1
    ensures result != Written ==> r.logs == store.logs && r.clock == store.clock
  {
    var balances := if t.id in store.balances then store.balances[t.id := PointsOf(t) + delta] else store.balances;
    match result
    case UpdateFailed => store
    case LogFailed => store.(balances := balances)
    case Written => Store(balances, store.logs + [PointLog(t.id, delta, reason, store.clock)], store.clock + 1)
  }

  /** The writes for every target in turn, each answered by `respond`: at most one log row per
      target is added, the existing rows are kept, and the stamps stay in order. */
  function Persist(store: Store, targets: seq<StudentRow>, delta: int, reason: string,
                   respond: StudentId -> WriteResult): (r: Store)
    ensures r.balances.Keys == store.balances.Keys
    ensures |store.logs| <= |r.logs| <= |store.logs| + |targets| && r.logs[..|store.logs|] == store.logs
    ensures Valid(store) ==> Valid(r)
  {
    if |targets| == 0 then store
    else
      var init := targets[..|targets| - 1];
      var t := targets[|targets| - 1];
      var before := Persist(store, init, delta, reason, respond);
      WriteTarget(before, t, delta, reason, respond(t.id))
  }

  /** One student's writes as seen from `id`: the balance moves only for the target and only
      if the update went through; the log sum grows by `delta` only when both writes did. */
  lemma WriteTargetEffect(store: Store, t: StudentRow, delta: int, reason: string, result: WriteResult, id: StudentId)
    requires id in store.balances
    ensures var r := WriteTarget(store, t, delta, reason, result);
            && id in r.balances
            && r.balances[id] == (if id == t.id && result != UpdateFailed then PointsOf(t) + delta else store.balances[id])
            && LogSum(r.logs, id) == LogSum(store.logs, id) + (if id == t.id && result == Written then delta else 0)
  {
    if result == Written {
      LogSumAppend(store.logs, PointLog(t.id, delta, reason, store.clock), id);
    }
  }

  /** A student who is not a target keeps its balance and its log sum. */
  lemma {:induction false} PersistUntouched(store: Store, targets: seq<StudentRow>, delta: int, reason: string,
                                            respond: StudentId -> WriteResult, id: StudentId)
    requires id in store.balances
    requires forall i :: 0 <= i < |targets| ==> targets[i].id != id
    ensures var r := Persist(store, targets, delta, reason, respond);
            r.balances[id] == store.balances[id] && LogSum(r.logs, id) == LogSum(store.logs, id)
  {
    if |targets| > 0 {
      var init := targets[..|targets| - 1];
      var t := targets[|targets| - 1];
      PersistUntouched(store, init, delta, reason, respond, id);
      var before := Persist(store, init, delta, reason, respond);
      WriteTargetEffect(before, t, delta, reason, respond(t.id), id);
      assert Persist(store, targets, delta, reason, respond) == WriteTarget(before, t, delta, reason, respond(t.id));
    }
  }

  /** What happens to one target: its balance becomes the local value plus `delta` unless the
      update failed, and its log sum grows by `delta` exactly when both writes succeeded. */
  lemma {:induction false} PersistTarget(store: Store, targets: seq<StudentRow>, delta: int, reason: string,
                                         respond: StudentId -> WriteResult, k: nat)
    requires UniqueIds(targets) && k < |targets|
    requires targets[k].id in store.balances
    ensures var r := Persist(store, targets, delta, reason, respond);
            var t := targets[k];
            && (respond(t.id) == UpdateFailed ==>
                  r.balances[t.id] == store.balances[t.id] && LogSum(r.logs, t.id) == LogSum(store.logs, t.id))
            && (respond(t.id) == LogFailed ==>
                  r.balances[t.id] == PointsOf(t) + delta && LogSum(r.logs, t.id) == LogSum(store.logs, t.id))
            && (respond(t.id) == Written ==>
                  r.balances[t.id] == PointsOf(t) + delta && LogSum(r.logs, t.id) == LogSum(store.logs, t.id) + delta)
  {
    var n := |targets|;
    var init := targets[..n - 1];
    var last := targets[n - 1];
    var id := targets[k].id;
    var before := Persist(store, init, delta, reason, respond);
    if k == n - 1 {
      PersistUntouched(store, init, delta, reason, respond, id);
    } else {
      PersistTarget(store, init, delta, reason, respond, k);
      assert last.id != id;
    }
    WriteTargetEffect(before, last, delta, reason, respond(last.id), id);
    assert Persist(store, targets, delta, reason, respond) == WriteTarget(before, last, delta, reason, respond(last.id));
  }

  /** When every write succeeds, one log row per target is appended, in target order, each
      carrying the target's id, `delta` and `reason`. */
  lemma {:induction false} PersistAllWritten(store: Store, targets: seq<StudentRow>, delta: int, reason: string,
                                             respond: StudentId -> WriteResult)
    requires forall i :: 0 <= i < |targets| ==> respond(targets[i].id) == Written
    ensures var r := Persist(store, targets, delta, reason, respond);
            && |r.logs| == |store.logs| + |targets|
            && r.clock == store.clock + |targets|
            && forall i :: 0 <= i < |targets| ==>
                 r.logs[|store.logs| + i] == PointLog(targets[i].id, delta, reason, store.clock + i)
  {
    if |targets| > 0 {
      var init := targets[..|targets| - 1];
      var t := targets[|targets| - 1];
      PersistAllWritten(store, init, delta, reason, respond);
      var before := Persist(store, init, delta, reason, respond);
      assert Persist(store, targets, delta, reason, respond) == WriteTarget(before, t, delta, reason, Written);
    }
  }

  /** The local balances agree with the stored ones for every listed student the store has. */
  ghost predicate InSync(students: seq<StudentRow>, store: Store) {
    forall i :: 0 <= i < |students| && students[i].id in store.balances ==>
      PointsOf(students[i]) == store.balances[students[i].id]
  }

  /** If every target's local balance agrees with the store and every write succeeds, no
      student's balance moves away from its log sum. */
  lemma LedgerKeptOnSuccess(store: Store, targets: seq<StudentRow>, delta: int, reason: string,
                            respond: StudentId -> WriteResult, id: StudentId)
    requires UniqueIds(targets) && InSync(targets, store)
    requires forall i :: 0 <= i < |targets| ==> respond(targets[i].id) == Written
    requires id in store.balances
    ensures Drift(Persist(store, targets, delta, reason, respond), id) == Drift(store, id)
  {
    if k :| 0 <= k < |targets| && targets[k].id == id {
      PersistTarget(store, targets, delta, reason, respond, k);
    } else {
      PersistUntouched(store, targets, delta, reason, respond, id);
    }
  }

  predicate IsSelected(selected: seq<StudentId>, s: StudentRow) {
    s.id in selected
  }

  /** `students.filter(s => selectedIds.includes(s.id))`, in roster order. */
  function Targets(students: seq<StudentRow>, selected: seq<StudentId>): seq<StudentRow> {
    Seqs.Filter(students, s => IsSelected(selected, s))
  }

  /** The targets are exactly the listed students whose id is selected. */
  lemma TargetsMembers(students: seq<StudentRow>, selected: seq<StudentId>)
    ensures forall s :: s in Targets(students, selected) <==> s in students && s.id in selected
  {
    Seqs.FilterMembers(students, s => IsSelected(selected, s));
  }

  /** A listed student after the optimistic update. */
  function Moved(selected: seq<StudentId>, s: StudentRow, delta: int): StudentRow {
    if s.id in selected then s.(points := Some(PointsOf(s) + delta)) else s
  }

  /** The optimistic roster: selected students' balances moved by `delta`, in roster order. */
  function Optimistic(students: seq<StudentRow>, selected: seq<StudentId>, delta: int): (r: seq<StudentRow>)
    ensures |r| == |students|
    ensures forall i :: 0 <= i < |students| && students[i].id in selected ==>
              r[i] == students[i].(points := Some(PointsOf(students[i]) + delta))
    ensures forall i :: 0 <= i < |students| && students[i].id !in selected ==> r[i] == students[i]
  {
    if |students| == 0 then []
    else
      var init := Optimistic(students[..|students| - 1], selected, delta);
      init + [Moved(selected, students[|students| - 1], delta)]
  }

  predicate AllWritten(targets: seq<StudentRow>, respond: StudentId -> WriteResult) {
    forall i :: 0 <= i < |targets| ==> respond(targets[i].id) == Written
  }

  /** Every target answered `Written` exactly when every selected listed student did. */
  lemma AllWrittenExactly(students: seq<StudentRow>, selected: seq<StudentId>, respond: StudentId -> WriteResult)
    ensures AllWritten(Targets(students, selected), respond) <==>
            forall i :: 0 <= i < |students| && students[i].id in selected ==> respond(students[i].id) == Written
  {
    var targets := Targets(students, selected);
    TargetsMembers(students, selected);
    if AllWritten(targets, respond) {
      forall i | 0 <= i < |students| && students[i].id in selected ensures respond(students[i].id) == Written {
        assert students[i] in targets;
      }
    } else {
      var k :| 0 <= k < |targets| && respond(targets[k].id) != Written;
      assert targets[k] in targets;
      var i :| 0 <= i < |students| && students[i] == targets[k];
    }
  }

  datatype BulkStatus = NothingSelected | BlankReason | Completed(count: nat) | Failed

  datatype BulkOutcome = BulkOutcome(status: BulkStatus, roster: TeacherRoster.Roster, store: Store)

  /** `handleBulkProcessPoints`, with `respond` giving the store's answer for each student. */
  function BulkProcessPoints(roster: TeacherRoster.Roster, form: PointForm, store: Store,
                             respond: StudentId -> WriteResult): (r: BulkOutcome)
    // an empty selection is a no-op: no local change and no writes
    ensures |roster.selected| == 0 ==> r == BulkOutcome(NothingSelected, roster, store)
    // a blank reason is refused before any local or stored change
    ensures |roster.selected| > 0 && Text.IsBlank(form.reason) ==> r == BulkOutcome(BlankReason, roster, store)
    // success clears the selection and counts the selected students listed
    ensures r.status.Completed? ==>
              && r.status.count == |Targets(roster.students, roster.selected)|
              && r.roster.selected == [] && r.roster.deleteTarget == roster.deleteTarget
    // any failed write puts the listed roster and selection back as they were
    ensures r.status == Failed ==> r.roster == roster
  {
    if |roster.selected| == 0 then BulkOutcome(NothingSelected, roster, store)
    else if Text.IsBlank(form.reason) then BulkOutcome(BlankReason, roster, store)
    else
      var delta := SignedAmount(form);
      var targets := Targets(roster.students, roster.selected);
      var after := Persist(store, targets, delta, form.reason, respond);
      if AllWritten(targets, respond) then
        var updated := Optimistic(roster.students, roster.selected, delta);
        BulkOutcome(Completed(|targets|), roster.(students := updated, selected := []), after)
      else
        BulkOutcome(Failed, roster, after)
  }

  /** An adjustment completes exactly when it passes both refusals and every selected listed
      student's writes succeed; otherwise it fails or is refused. */
  lemma BulkCompletesExactly(roster: TeacherRoster.Roster, form: PointForm, store: Store,
                             respond: StudentId -> WriteResult)
    ensures var r := BulkProcessPoints(roster, form, store, respond);
            && (r.status.Completed? <==>
                  |roster.selected| > 0 && !Text.IsBlank(form.reason)
                  && forall i :: 0 <= i < |roster.students| && roster.students[i].id in roster.selected ==>
                       respond(roster.students[i].id) == Written)
            && (r.status == Failed <==>
                  |roster.selected| > 0 && !Text.IsBlank(form.reason) && !r.status.Completed?)
  {
    AllWrittenExactly(roster.students, roster.selected, respond);
  }

  /** A completed adjustment lists the optimistic roster: every selected student moved by the
      signed amount, everyone else as they were, in the same order. */
  lemma BulkSuccessShowsOptimistic(roster: TeacherRoster.Roster, form: PointForm, store: Store,
                                   respond: StudentId -> WriteResult, r: BulkOutcome)
    requires r == BulkProcessPoints(roster, form, store, respond) && r.status.Completed?
    ensures r.roster.students == Optimistic(roster.students, roster.selected, SignedAmount(form))
  {
  }

  /** The targets of an in-sync roster are in sync, and their ids are unique. */
  lemma TargetsInSync(students: seq<StudentRow>, selected: seq<StudentId>, store: Store)
    requires UniqueIds(students) && InSync(students, store)
    ensures UniqueIds(Targets(students, selected)) && InSync(Targets(students, selected), store)
  {
    var targets := Targets(students, selected);
    FilterUniqueIds(students, s => IsSelected(selected, s));
    TargetsMembers(students, selected);
    forall i | 0 <= i < |targets| && targets[i].id in store.balances
      ensures PointsOf(targets[i]) == store.balances[targets[i].id]
    {
      assert targets[i] in targets;
      var j :| 0 <= j < |students| && students[j] == targets[i];
    }
  }

  /** After every write succeeded, the optimistic roster agrees with the store. */
  lemma OptimisticMatchesStore(students: seq<StudentRow>, selected: seq<StudentId>, store: Store, delta: int,
                               reason: string, respond: StudentId -> WriteResult)
    requires UniqueIds(students) && InSync(students, store)
    requires AllWritten(Targets(students, selected), respond)
    ensures InSync(Optimistic(students, selected, delta),
                   Persist(store, Targets(students, selected), delta, reason, respond))
  {
    var shown := Optimistic(students, selected, delta);
    var after := Persist(store, Targets(students, selected), delta, reason, respond);
    forall i | 0 <= i < |shown| && shown[i].id in after.balances
      ensures PointsOf(shown[i]) == after.balances[shown[i].id]
    {
      if students[i].id in selected {
        SelectedStored(students, selected, store, delta, reason, respond, i);
      } else {
        UnselectedStored(students, selected, store, delta, reason, respond, i);
      }
    }
  }

  /** A selected student is stored at its listed balance plus `delta` once every write
      succeeded. */
  lemma SelectedStored(students: seq<StudentRow>, selected: seq<StudentId>, store: Store, delta: int,
                       reason: string, respond: StudentId -> WriteResult, i: nat)
    requires UniqueIds(students) && AllWritten(Targets(students, selected), respond)
    requires i < |students| && students[i].id in selected && students[i].id in store.balances
    ensures Persist(store, Targets(students, selected), delta, reason, respond).balances[students[i].id] ==
            PointsOf(students[i]) + delta
  {
    var targets := Targets(students, selected);
    FilterUniqueIds(students, s => IsSelected(selected, s));
    TargetsMembers(students, selected);
    assert students[i] in targets;
    var k :| 0 <= k < |targets| && targets[k] == students[i];
    PersistTarget(store, targets, delta, reason, respond, k);
  }

  /** A student who is not selected keeps its stored balance. */
  lemma UnselectedStored(students: seq<StudentRow>, selected: seq<StudentId>, store: Store, delta: int,
                         reason: string, respond: StudentId -> WriteResult, i: nat)
    requires i < |students| && students[i].id !in selected && students[i].id in store.balances
    ensures Persist(store, Targets(students, selected), delta, reason, respond).balances[students[i].id] ==
            store.balances[students[i].id]
  {
    var targets := Targets(students, selected);
    TargetsMembers(students, selected);
    forall m | 0 <= m < |targets| ensures targets[m].id != students[i].id {
      assert targets[m] in targets;
    }
    PersistUntouched(store, targets, delta, reason, respond, students[i].id);
  }

  /** A completed adjustment keeps the ledger: every stored balance keeps its distance from
      its log sum (so a balance equal to its log sum stays equal), and the listed roster still
      agrees with the store. The premise is that the listed balances were current: the source
      writes the local value plus the delta, not the stored one. */
  lemma BulkSuccessKeepsLedger(roster: TeacherRoster.Roster, form: PointForm, store: Store,
                               respond: StudentId -> WriteResult, id: StudentId)
    requires UniqueIds(roster.students) && InSync(roster.students, store)
    requires id in store.balances
    requires BulkProcessPoints(roster, form, store, respond).status.Completed?
    ensures var r := BulkProcessPoints(roster, form, store, respond);
            && id in r.store.balances
            && Drift(r.store, id) == Drift(store, id)
            && InSync(r.roster.students, r.store)
  {
    var targets := Targets(roster.students, roster.selected);
    TargetsInSync(roster.students, roster.selected, store);
    LedgerKeptOnSuccess(store, targets, SignedAmount(form), form.reason, respond, id);
    OptimisticMatchesStore(roster.students, roster.selected, store, SignedAmount(form), form.reason, respond);
  }

  /** A completed adjustment appends exactly one log row per selected student, in roster
      order, each with the signed amount and the reason. */
  lemma BulkSuccessLogs(roster: TeacherRoster.Roster, form: PointForm, store: Store,
                        respond: StudentId -> WriteResult)
    requires BulkProcessPoints(roster, form, store, respond).status.Completed?
    ensures var r := BulkProcessPoints(roster, form, store, respond);
            var targets := Targets(roster.students, roster.selected);
            && |r.store.logs| == |store.logs| + |targets|
            && r.store.logs[..|store.logs|] == store.logs
            && forall i :: 0 <= i < |targets| ==>
                 r.store.logs[|store.logs| + i] == PointLog(targets[i].id, SignedAmount(form), form.reason, store.clock + i)
  {
    var targets := Targets(roster.students, roster.selected);
    TargetsMembers(roster.students, roster.selected);
    forall i | 0 <= i < |targets| ensures respond(targets[i].id) == Written {
      assert targets[i] in targets;
    }
    PersistAllWritten(store, targets, SignedAmount(form), form.reason, respond);
  }

  /** A failed adjustment rolls back only the listed roster: a selected student whose balance
      update did reach the store now has a stored balance that differs from the listed one by
      the delta. */
  lemma BulkFailureRollsBackOnlyLocally(roster: TeacherRoster.Roster, form: PointForm, store: Store,
                                        respond: StudentId -> WriteResult, j: nat)
    requires UniqueIds(roster.students)
    requires BulkProcessPoints(roster, form, store, respond).status == Failed
    requires j < |roster.students| && roster.students[j].id in roster.selected
    requires roster.students[j].id in store.balances
    requires respond(roster.students[j].id) != UpdateFailed
    ensures var r := BulkProcessPoints(roster, form, store, respond);
            var s := r.roster.students[j];
            r.store.balances[s.id] == PointsOf(s) + SignedAmount(form)
  {
    var targets := Targets(roster.students, roster.selected);
    var s := roster.students[j];
    FilterUniqueIds(roster.students, x => IsSelected(roster.selected, x));
    TargetsMembers(roster.students, roster.selected);
    assert s in targets;
    var k :| 0 <= k < |targets| && targets[k] == s;
    PersistTarget(store, targets, SignedAmount(form), form.reason, respond, k);
  }

  /** A student whose balance update succeeds but whose log insert fails ends with a balance
      `delta` away from its log sum, when the listed balance was current. */
  lemma LogFailureBreaksLedger(store: Store, targets: seq<StudentRow>, delta: int, reason: string,
                               respond: StudentId -> WriteResult, k: nat)
    requires UniqueIds(targets) && k < |targets|
    requires targets[k].id in store.balances && PointsOf(targets[k]) == store.balances[targets[k].id]
    requires respond(targets[k].id) == LogFailed
    ensures Drift(Persist(store, targets, delta, reason, respond), targets[k].id) == Drift(store, targets[k].id) + delta
  {
    PersistTarget(store, targets, delta, reason, respond, k);
  }

  /** A completed adjustment writes the listed balance plus the delta, so a student listed at a
      stale balance (after an earlier failed batch, say) has its drift moved by the gap between
      the stored and the listed balance. */
  lemma StaleBalanceShiftsDrift(s: StudentRow, form: PointForm, store: Store)
    requires !Text.IsBlank(form.reason) && s.id in store.balances
    ensures var r := BulkProcessPoints(TeacherRoster.Roster([s], [s.id], None), form, store, AlwaysWritten);
            && r.status == Completed(1) && s.id in r.store.balances
            && Drift(r.store, s.id) == Drift(store, s.id) - (store.balances[s.id] - PointsOf(s))
  {
    var r := BulkProcessPoints(TeacherRoster.Roster([s], [s.id], None), form, store, AlwaysWritten);
    OneStudentAdjusted(s, form, store, r);
    LogSumAppend(store.logs, PointLog(s.id, SignedAmount(form), form.reason, store.clock), s.id);
  }

  /** Stored 5 with an empty log, listed 0: giving 10 leaves the stored 10 and a log sum of 10,
      so the drift of 5 is gone rather than kept. */
  lemma StaleBalanceExample(s: StudentRow, reason: string)
    requires s.points == Some(0) && !Text.IsBlank(reason)
    ensures var store := Store(map[s.id := 5], [], 0);
            var r := BulkProcessPoints(TeacherRoster.Roster([s], [s.id], None), PointForm(Give, 10, reason),
                                       store, AlwaysWritten);
            && Drift(store, s.id) == 5
            && s.id in r.store.balances && Drift(r.store, s.id) == 0
  {
    StaleBalanceShiftsDrift(s, PointForm(Give, 10, reason), Store(map[s.id := 5], [], 0));
  }

  predicate ForStudent(id: StudentId, l: PointLog) {
    l.studentId == id
  }

  /** The history dialog's query: the student's log rows, `created_at` descending. */
  function History(store: Store, id: StudentId): (h: seq<PointLog>)
    ensures forall l :: l in h ==> l.studentId == id && l in store.logs
    ensures forall l :: l in store.logs && l.studentId == id ==> l in h
  {
    var mine := Seqs.Filter(store.logs, l => ForStudent(id, l));
    Seqs.FilterMembers(store.logs, l => ForStudent(id, l));
    Seqs.ReverseMembership(mine);
    Seqs.Reverse(mine)
  }

  /** The history is newest first. */
  lemma HistoryNewestFirst(store: Store, id: StudentId)
    requires Valid(store)
    ensures Seqs.Descending(History(store, id), LogAt)
  {
    var mine := Seqs.Filter(store.logs, l => ForStudent(id, l));
    Seqs.FilterAscending(store.logs, l => ForStudent(id, l), LogAt);
    Seqs.ReverseDescending(mine, LogAt);
  }

  /** The history dialog: the student it shows and the rows it lists. */
  datatype HistoryView = HistoryView(student: Option<StudentRow>, logs: seq<PointLog>)

  /** `openHistoryModal`, with `fetchOk` the store's answer to the query. The dialog switches
      to the student at once; the rows are replaced only when the query succeeds, so a failed
      query leaves the rows of the student shown before. */
  function OpenHistory(view: HistoryView, store: Store, s: StudentRow, fetchOk: bool): (r: HistoryView)
    ensures r.student == Some(s)
    ensures fetchOk ==> forall i :: 0 <= i < |r.logs| ==> r.logs[i].studentId == s.id && r.logs[i] in store.logs
    ensures fetchOk ==> forall i :: 0 <= i < |store.logs| && store.logs[i].studentId == s.id ==> store.logs[i] in r.logs
    ensures !fetchOk ==> r.logs == view.logs
    ensures fetchOk ==> r.logs == History(store, s.id)
  {
    HistoryView(Some(s), if fetchOk then History(store, s.id) else view.logs)
  }

  /** A successful query fills the dialog newest first. */
  lemma OpenHistoryNewestFirst(view: HistoryView, store: Store, s: StudentRow)
    requires Valid(store)
    ensures Seqs.Descending(OpenHistory(view, store, s, true).logs, LogAt)
  {
    HistoryNewestFirst(store, s.id);
  }

  /** The sum of a list of log rows' amounts. */
  function AmountSum(logs: seq<PointLog>): int {
    if |logs| == 0 then 0 else logs[0].amount + AmountSum(logs[1..])
  }

  lemma {:induction false} AmountSumAppend(a: seq<PointLog>, b: seq<PointLog>)
    ensures AmountSum(a + b) == AmountSum(a) + AmountSum(b)
  {
    if |a| == 0 {
      assert a + b == b;
    } else {
      assert (a + b)[1..] == a[1..] + b;
      AmountSumAppend(a[1..], b);
    }
  }

  lemma {:induction false} AmountSumReverse(logs: seq<PointLog>)
    ensures AmountSum(Seqs.Reverse(logs)) == AmountSum(logs)
  {
    if |logs| > 0 {
      var init := logs[..|logs| - 1];
      var last := logs[|logs| - 1];
      AmountSumReverse(init);
      assert Seqs.Reverse(logs) == [last] + Seqs.Reverse(init);
      AmountSumAppend(init, [last]);
      assert init + [last] == logs;
    }
  }

  lemma {:induction false} FilteredSum(logs: seq<PointLog>, id: StudentId)
    ensures AmountSum(Seqs.Filter(logs, l => ForStudent(id, l))) == LogSum(logs, id)
  {
    if |logs| > 0 {
      var init := logs[..|logs| - 1];
      var last := logs[|logs| - 1];
      FilteredSum(init, id);
      AmountSumAppend(Seqs.Filter(init, l => ForStudent(id, l)), if ForStudent(id, last) then [last] else []);
    }
  }

  /** The amounts in the history dialog add up to the student's log sum, so a student with
      zero drift shows a balance equal to the total of the history shown. */
  lemma HistoryTotalsLedger(store: Store, id: StudentId)
    requires id in store.balances
    ensures AmountSum(History(store, id)) == LogSum(store.logs, id)
    ensures Drift(store, id) == 0 <==> store.balances[id] == AmountSum(History(store, id))
  {
    var mine := Seqs.Filter(store.logs, l => ForStudent(id, l));
    AmountSumReverse(mine);
    FilteredSum(store.logs, id);
  }

  function AlwaysWritten(id: StudentId): WriteResult {
    Written
  }

  /** Giving a student who starts at 0 points 15 points for one reason and then taking 5 for
      another leaves 10 points, listed and stored alike, and a history of the two entries,
      newest first. */
  lemma GiveThenTakeScenario(s: StudentRow, praise: string, penalty: string, first: BulkOutcome, second: BulkOutcome)
    requires s.points == Some(0) && !Text.IsBlank(praise) && !Text.IsBlank(penalty)
    requires first == BulkProcessPoints(TeacherRoster.Roster([s], [s.id], None), PointForm(Give, 15, praise),
                                        Store(map[s.id := 0], [], 0), AlwaysWritten)
    requires second == BulkProcessPoints(first.roster.(selected := [s.id]), PointForm(Take, 5, penalty), first.store,
                                         AlwaysWritten)
    ensures first.status == Completed(1) && second.status == Completed(1)
    ensures second.roster.students == [s.(points := Some(10))]
    ensures s.id in second.store.balances && second.store.balances[s.id] == 10
    ensures History(second.store, s.id) == [PointLog(s.id, -5, penalty, 1), PointLog(s.id, 15, praise, 0)]
  {
    GiveStep(s, praise, first);
    TakeStep(s, praise, penalty, first, second);
    TwoLogHistory(second.store, PointLog(s.id, 15, praise, 0), PointLog(s.id, -5, penalty, 1));
  }

  lemma GiveStep(s: StudentRow, praise: string, first: BulkOutcome)
    requires s.points == Some(0) && !Text.IsBlank(praise)
    requires first == BulkProcessPoints(TeacherRoster.Roster([s], [s.id], None), PointForm(Give, 15, praise),
                                        Store(map[s.id := 0], [], 0), AlwaysWritten)
    ensures first == BulkOutcome(Completed(1), TeacherRoster.Roster([s.(points := Some(15))], [], None),
                                 Store(map[s.id := 0][s.id := 15], [PointLog(s.id, 15, praise, 0)], 1))
  {
    assert PointsOf(s) + SignedAmount(PointForm(Give, 15, praise)) == 15;
    assert [] + [PointLog(s.id, 15, praise, 0)] == [PointLog(s.id, 15, praise, 0)];
    OneStudentAdjusted(s, PointForm(Give, 15, praise), Store(map[s.id := 0], [], 0), first);
  }

  lemma TakeStep(s: StudentRow, praise: string, penalty: string, first: BulkOutcome, second: BulkOutcome)
    requires !Text.IsBlank(penalty)
    requires first == BulkOutcome(Completed(1), TeacherRoster.Roster([s.(points := Some(15))], [], None),
                                  Store(map[s.id := 0][s.id := 15], [PointLog(s.id, 15, praise, 0)], 1))
    requires second == BulkProcessPoints(first.roster.(selected := [s.id]), PointForm(Take, 5, penalty), first.store,
                                         AlwaysWritten)
    ensures second == BulkOutcome(Completed(1), TeacherRoster.Roster([s.(points := Some(10))], [], None),
                                  Store(map[s.id := 0][s.id := 15][s.id := 10],
                                        [PointLog(s.id, 15, praise, 0), PointLog(s.id, -5, penalty, 1)], 2))
  {
    var s1 := s.(points := Some(15));
    assert first.roster.(selected := [s.id]) == TeacherRoster.Roster([s1], [s1.id], None);
    assert PointsOf(s1) + SignedAmount(PointForm(Take, 5, penalty)) == 10;
    assert [PointLog(s.id, 15, praise, 0)] + [PointLog(s.id, -5, penalty, 1)]
        == [PointLog(s.id, 15, praise, 0), PointLog(s.id, -5, penalty, 1)];
    OneStudentAdjusted(s1, PointForm(Take, 5, penalty), first.store, second);
  }

  lemma TwoLogHistory(store: Store, older: PointLog, newer: PointLog)
    requires store.logs == [older, newer] && older.studentId == newer.studentId
    ensures History(store, older.studentId) == [newer, older]
  {
    HistoryOfOwnLogs(store, older.studentId);
    var h := Seqs.Reverse(store.logs);
    assert h[0] == newer && h[1] == older;
  }

  /** A one-student roster with that student selected, every write succeeding. */
  lemma OneStudentAdjusted(s: StudentRow, form: PointForm, store: Store, r: BulkOutcome)
    requires !Text.IsBlank(form.reason) && s.id in store.balances
    requires r == BulkProcessPoints(TeacherRoster.Roster([s], [s.id], None), form, store, AlwaysWritten)
    ensures var delta := SignedAmount(form);
            r == BulkOutcome(Completed(1),
                             TeacherRoster.Roster([s.(points := Some(PointsOf(s) + delta))], [], None),
                             Store(store.balances[s.id := PointsOf(s) + delta],
                                   store.logs + [PointLog(s.id, delta, form.reason, store.clock)], store.clock + 1))
  {
    var roster := TeacherRoster.Roster([s], [s.id], None);
    var delta := SignedAmount(form);
    SingleTarget(s);
    assert AllWritten([s], AlwaysWritten);
    BulkCompleted(roster, form, store, AlwaysWritten);
    PersistOne(store, s, delta, form.reason, AlwaysWritten);
    WrittenOne(store, s, delta, form.reason);
    OptimisticOne(s, delta);
  }

  /** Past the refusals and with every write succeeding, the outcome is the optimistic roster
      with the selection cleared, over the persisted store. */
  lemma BulkCompleted(roster: TeacherRoster.Roster, form: PointForm, store: Store, respond: StudentId -> WriteResult)
    requires |roster.selected| > 0 && !Text.IsBlank(form.reason)
    requires AllWritten(Targets(roster.students, roster.selected), respond)
    ensures var targets := Targets(roster.students, roster.selected);
            var delta := SignedAmount(form);
            BulkProcessPoints(roster, form, store, respond) ==
              BulkOutcome(Completed(|targets|),
                          roster.(students := Optimistic(roster.students, roster.selected, delta), selected := []),
                          Persist(store, targets, delta, form.reason, respond))
  {
  }

  lemma WrittenOne(store: Store, t: StudentRow, delta: int, reason: string)
    requires t.id in store.balances
    ensures WriteTarget(store, t, delta, reason, Written) ==
            Store(store.balances[t.id := PointsOf(t) + delta],
                  store.logs + [PointLog(t.id, delta, reason, store.clock)], store.clock + 1)
  {
  }

  lemma OptimisticOne(s: StudentRow, delta: int)
    ensures Optimistic([s], [s.id], delta) == [s.(points := Some(PointsOf(s) + delta))]
  {
  }

  /** Past the two refusals, the store receives the writes for the selected students. */
  lemma BulkWrites(roster: TeacherRoster.Roster, form: PointForm, store: Store, respond: StudentId -> WriteResult)
    requires |roster.selected| > 0 && !Text.IsBlank(form.reason)
    ensures BulkProcessPoints(roster, form, store, respond).store ==
            Persist(store, Targets(roster.students, roster.selected), SignedAmount(form), form.reason, respond)
  {
  }

  lemma SingleTarget(s: StudentRow)
    ensures Targets([s], [s.id]) == [s]
  {
    Seqs.FilterAll([s], x => IsSelected([s.id], x));
  }

  lemma PersistOne(store: Store, t: StudentRow, delta: int, reason: string, respond: StudentId -> WriteResult)
    ensures Persist(store, [t], delta, reason, respond) == WriteTarget(store, t, delta, reason, respond(t.id))
  {
    assert [t][..0] == [];
  }

  lemma HistoryOfOwnLogs(store: Store, id: StudentId)
    requires forall i :: 0 <= i < |store.logs| ==> store.logs[i].studentId == id
    ensures History(store, id) == Seqs.Reverse(store.logs)
  {
    Seqs.FilterAll(store.logs, l => ForStudent(id, l));
  }
}
