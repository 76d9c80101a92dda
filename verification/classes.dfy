/** Class creation in the class managers (`handleCreateClass`, `copyCode`): a blank class name
    is refused before a code is drawn; otherwise a fresh invite code is generated and the row
    `{name, invite_code, teacher_id}` is inserted. The class the store returns becomes the
    teacher's class and its id is reported to the parent; an insert error changes nothing. */
module Classes {
  import opened Options
  import Text
  import Codes
  import Records

  type ClassId = Records.ClassId
  type UserId = string

  /** The row sent to the `classes` table. */
  datatype ClassRecord = ClassRecord(name: string, inviteCode: string, teacherId: UserId)

  /** A `classes` row as the store returns it. */
  datatype ClassRow = ClassRow(id: ClassId, name: string, inviteCode: string, teacherId: UserId)

  /** The store's answer to the insert: the new row's id, or an error message. */
  datatype InsertReply = Inserted(id: ClassId) | InsertError(message: string)

  datatype CreateStatus = BlankName | Created | CreateFailed(message: string)

  /** What one press of the create button leaves behind: the teacher's class, the row sent to
      the store (if any) and the class id handed to `onClassFound` (if any). */
  datatype CreateOutcome = CreateOutcome(
    status: CreateStatus,
    myClass: Option<ClassRow>,
    sent: Option<ClassRecord>,
    reported: Option<ClassId>)

  function CreateClass(className: string, myClass: Option<ClassRow>, userId: UserId,
                       draws: seq<real>, reply: InsertReply): (r: CreateOutcome)
    requires Codes.InviteCodeLength <= |draws| && Codes.AllRandom(draws)
    // a blank name is refused with nothing sent and nothing changed
    ensures r.status == BlankName <==> Text.IsBlank(className)
    ensures r.status == BlankName ==> r.myClass == myClass && r.sent == None && r.reported == None
    // otherwise exactly one row is sent: the name as typed, a fresh code, the teacher's id
    ensures r.status != BlankName ==>
              && r.sent.Some?
              && r.sent.value.name == className
              && r.sent.value.teacherId == userId
              && r.sent.value.inviteCode == Codes.InviteCode(draws)
              && |r.sent.value.inviteCode| == 6
              && forall k :: 0 <= k < 6 ==> Codes.IsCodeChar(r.sent.value.inviteCode[k])
    // the stored class becomes the teacher's class and its id is reported
    ensures r.status == Created <==> !Text.IsBlank(className) && reply.Inserted?
    ensures r.status == Created ==>
              && r.myClass == Some(ClassRow(reply.id, className, r.sent.value.inviteCode, userId))
              && r.reported == Some(reply.id)
    // an insert error leaves the teacher's class as it was
    ensures r.status.CreateFailed? ==> r.myClass == myClass && r.reported == None
  {
    if Text.IsBlank(className) then
      CreateOutcome(BlankName, myClass, None, None)
    else
      var record := ClassRecord(className, Codes.InviteCode(draws), userId);
      match reply
      case InsertError(message) =>
        CreateOutcome(CreateFailed(message), myClass, Some(record), None)
      case Inserted(id) =>
        var row := ClassRow(id, record.name, record.inviteCode, record.teacherId);
        CreateOutcome(Created, Some(row), Some(record), Some(id))
  }

  /** A name made only of white space is refused, whatever the store would have answered. */
  lemma WhiteSpaceNameRefused(className: string, myClass: Option<ClassRow>, userId: UserId,
                              draws: seq<real>, reply: InsertReply)
    requires Codes.InviteCodeLength <= |draws| && Codes.AllRandom(draws)
    requires Text.AllSpace(className)
    ensures CreateClass(className, myClass, userId, draws, reply)
            == CreateOutcome(BlankName, myClass, None, None)
  {
    Text.BlankIffAllSpace(className);
  }

  /** `copyCode`: the text put on the clipboard, present exactly when there is a class. */
  function CopyCode(myClass: Option<ClassRow>): (clip: Option<string>)
    ensures clip.None? <==> myClass.None?
    ensures clip.Some? ==> clip.value == myClass.value.inviteCode
  {
    match myClass
    case None => None
    case Some(c) => Some(c.inviteCode)
  }
}
