/** Writing missions (`teacher/MissionManager.jsx`): the mission form with its defaults, the
    number fields' `parseInt(value) || 0` edits, `handleCreateMission` (blank title or guide
    refused first, then a missing class, then the insert of the form plus `class_id`, with the
    form reset on success) and the class's missions listed newest first. */
module Missions {
  import opened Options
  import Records
  import Seqs
  import Text
  import Numbers

  type ClassId = Records.ClassId

  datatype MissionForm = MissionForm(
    title: string,
    guide: string,
    genre: string,
    minChars: int,
    minParagraphs: int,
    baseReward: int,
    bonusThreshold: int,
    bonusReward: int)

  /** The form's initial state, and the state it is reset to after a mission is stored. */
  const InitialForm: MissionForm := MissionForm("", "", "수필", 100, 2, 100, 100, 10)

  datatype NumberField = MinChars | MinParagraphs | BaseReward | BonusThreshold | BonusReward

  function NumberOf(form: MissionForm, field: NumberField): int {
    match field
    case MinChars => form.minChars
    case MinParagraphs => form.minParagraphs
    case BaseReward => form.baseReward
    case BonusThreshold => form.bonusThreshold
    case BonusReward => form.bonusReward
  }

  /** The form with one number field set to `v`: that field reads `v`, every other field is
      kept. */
  function SetNumber(form: MissionForm, field: NumberField, v: int): (r: MissionForm)
    ensures NumberOf(r, field) == v
    ensures forall f :: f != field ==> NumberOf(r, f) == NumberOf(form, f)
    ensures r.title == form.title && r.guide == form.guide && r.genre == form.genre
  {
    match field
    case MinChars => form.(minChars := v)
    case MinParagraphs => form.(minParagraphs := v)
    case BaseReward => form.(baseReward := v)
    case BonusThreshold => form.(bonusThreshold := v)
    case BonusReward => form.(bonusReward := v)
  }

  /** An edit of one number field: `setFormData({...formData, field: parseInt(value) || 0})`.
      The edited field reads the parsed value (0 when it does not parse), every other field is
      kept. */
  function EditNumber(form: MissionForm, field: NumberField, input: string): (r: MissionForm)
    ensures NumberOf(r, field) != 0 ==> Numbers.ParseInt(input) == Some(NumberOf(r, field))
    ensures Numbers.ParseInt(input).Some? ==> NumberOf(r, field) == Numbers.ParseInt(input).value
    ensures Numbers.ParseInt(input).None? ==> NumberOf(r, field) == 0
    ensures forall f :: f != field ==> NumberOf(r, f) == NumberOf(form, f)
    ensures r.title == form.title && r.guide == form.guide && r.genre == form.genre
  {
    SetNumber(form, field, Numbers.NumberInput(input))
  }

  /** Typing a rendered integer into a number field stores that integer. */
  lemma EditNumberRoundTrip(form: MissionForm, field: NumberField, n: int)
    ensures NumberOf(EditNumber(form, field, Numbers.Show(n)), field) == n
  {
    Numbers.NumberInputRoundTrip(n);
  }

  /** The row sent to `writing_missions`: the form's fields plus `class_id`. */
  datatype MissionInsert = MissionInsert(form: MissionForm, classId: ClassId)

  /** A stored mission with its store-assigned id and `created_at` stamp. */
  datatype MissionRow = MissionRow(id: nat, classId: ClassId, form: MissionForm, createdAt: int)

  function CreatedAt(m: MissionRow): int {
    m.createdAt
  }

  /** The `writing_missions` table: rows in insertion order and the next id and stamp. */
  datatype Table = Table(rows: seq<MissionRow>, nextId: nat, clock: int)

  ghost predicate Valid(t: Table) {
    && Seqs.Ascending(t.rows, CreatedAt)
    && forall i :: 0 <= i < |t.rows| ==> t.rows[i].id < t.nextId && t.rows[i].createdAt <= t.clock
  }

  function Insert(t: Table, rec: MissionInsert): (r: Table)
    ensures |r.rows| == |t.rows| + 1 && r.rows[..|t.rows|] == t.rows
    ensures r.rows[|t.rows|].form == rec.form && r.rows[|t.rows|].classId == rec.classId
    ensures Valid(t) ==> Valid(r)
  {
    Table(t.rows + [MissionRow(t.nextId, rec.classId, rec.form, t.clock)], t.nextId + 1, t.clock + 1)
  }

  predicate InClass(classId: ClassId, m: MissionRow) {
    m.classId == classId
  }

  /** `fetchMissions`: the class's missions, ordered by `created_at` descending. */
  function ListMissions(t: Table, classId: ClassId): (r: seq<MissionRow>)
    ensures forall m :: m in r ==> m.classId == classId && m in t.rows
    ensures forall m :: m in t.rows && m.classId == classId ==> m in r
  {
    var mine := Seqs.Filter(t.rows, m => InClass(classId, m));
    Seqs.FilterMembers(t.rows, m => InClass(classId, m));
    Seqs.ReverseMembership(mine);
    Seqs.Reverse(mine)
  }

  /** The listed missions are newest first. */
  lemma ListedNewestFirst(t: Table, classId: ClassId)
    requires Valid(t)
    ensures Seqs.Descending(ListMissions(t, classId), CreatedAt)
  {
    var mine := Seqs.Filter(t.rows, m => InClass(classId, m));
    Seqs.FilterAscending(t.rows, m => InClass(classId, m), CreatedAt);
    Seqs.ReverseDescending(mine, CreatedAt);
  }

  datatype CreateStatus = MissingText | NoClass | Created | CreateFailed

  /** What one submit leaves behind: the form, the table, the listed missions and the row sent
      (if any). */
  datatype CreateOutcome = CreateOutcome(
    status: CreateStatus,
    form: MissionForm,
    table: Table,
    missions: seq<MissionRow>,
    sent: Option<MissionInsert>)

  /** `handleCreateMission`. `insertOk` is the store's answer to the insert and `fetchOk` its
      answer to the reload; a failed reload keeps the listed missions. */
  function CreateMission(form: MissionForm, classId: Option<ClassId>, insertOk: bool, fetchOk: bool,
                         t: Table, missions: seq<MissionRow>): (r: CreateOutcome)
    // a blank title or guide is refused first, with nothing sent
    ensures r.status == MissingText <==> Text.IsBlank(form.title) || Text.IsBlank(form.guide)
    // then a missing class, with nothing sent
    ensures r.status == NoClass <==>
              !Text.IsBlank(form.title) && !Text.IsBlank(form.guide) && classId.None?
    ensures r.status in {MissingText, NoClass} ==>
              r.form == form && r.table == t && r.missions == missions && r.sent == None
    // otherwise the form, as typed, is sent with the class id
    ensures r.status in {Created, CreateFailed} ==>
              classId.Some? && r.sent == Some(MissionInsert(form, classId.value))
    // an insert error keeps the form and changes nothing
    ensures r.status == CreateFailed ==> r.form == form && r.table == t && r.missions == missions
    // success stores one row, resets the form to its defaults and reloads the list
    ensures r.status == Created <==>
              !Text.IsBlank(form.title) && !Text.IsBlank(form.guide) && classId.Some? && insertOk
    ensures r.status == Created ==>
              && r.form == InitialForm
              && r.table == Insert(t, r.sent.value)
              && (fetchOk ==> r.missions == ListMissions(r.table, classId.value))
              && (!fetchOk ==> r.missions == missions)
  {
    if Text.IsBlank(form.title) || Text.IsBlank(form.guide) then
      CreateOutcome(MissingText, form, t, missions, None)
    else if classId.None? then
      CreateOutcome(NoClass, form, t, missions, None)
    else
      var rec := MissionInsert(form, classId.value);
      if !insertOk then
        CreateOutcome(CreateFailed, form, t, missions, Some(rec))
      else
        var t' := Insert(t, rec);
        var listed := if fetchOk then ListMissions(t', classId.value) else missions;
        CreateOutcome(Created, InitialForm, t', listed, Some(rec))
  }

  /** The reset form cannot be submitted as it is: its title is empty. */
  lemma ResetFormRefused(classId: Option<ClassId>, insertOk: bool, fetchOk: bool, t: Table,
                         missions: seq<MissionRow>)
    ensures CreateMission(InitialForm, classId, insertOk, fetchOk, t, missions).status == MissingText
  {
  }

  /** After a successful submit and reload, the new mission heads the list, followed by the
      class's earlier missions, newest first. */
  lemma CreatedMissionListedFirst(form: MissionForm, classId: ClassId, t: Table, missions: seq<MissionRow>)
    requires Valid(t)
    requires !Text.IsBlank(form.title) && !Text.IsBlank(form.guide)
    ensures var r := CreateMission(form, Some(classId), true, true, t, missions);
            && Valid(r.table)
            && |r.missions| == |ListMissions(t, classId)| + 1
            && r.missions[0].form == form && r.missions[0].classId == classId
            && r.missions[1..] == ListMissions(t, classId)
            && Seqs.Descending(r.missions, CreatedAt)
  {
    var rec := MissionInsert(form, classId);
    var t' := Insert(t, rec);
    var row := t'.rows[|t.rows|];
    assert t'.rows == t.rows + [row];
    Seqs.FilterAppend(t.rows, row, m => InClass(classId, m));
    ListedNewestFirst(t', classId);
  }
}
