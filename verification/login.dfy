/** Student login (`StudentLogin.jsx`): the code field upper-cases what is typed and holds at most
    8 characters; `handleLogin` refuses a code shorter than 8 before any lookup, looks the
    upper-cased code up with `.single()` (which fails unless exactly one row matches), and on a
    match stores the session `{id, name, code, className, role: 'STUDENT'}`. */
module Login {
  import opened Options
  import opened Records
  import Seqs
  import Text

  const CodeLength: nat := 8
  const StudentRole: string := "STUDENT"

  /** What the lookup can see: the `students` rows and the names of their classes (the
      `classes(name)` join). */
  datatype Directory = Directory(students: seq<StudentRow>, classNames: map<ClassId, string>)

  /** The record stored under `student_session`. */
  datatype Session = Session(id: StudentId, name: string, code: string, className: Option<string>, role: string)

  datatype LoginResult = TooShort | NotFound | LoggedIn(session: Session)

  /** The field's value after the user types `raw`: at most `maxLength` = 8 characters, upper-cased. */
  function TypedCode(raw: string): (code: string)
    ensures |code| == if |raw| < CodeLength then |raw| else CodeLength
    ensures |code| == CodeLength <==> |raw| >= CodeLength
    ensures forall i :: 0 <= i < |code| ==> !Text.IsLowerAscii(code[i])
    ensures forall i :: 0 <= i < |code| ==> code[i] == Text.UpperChar(raw[i])
  {
    Text.ToUpper(if |raw| <= CodeLength then raw else raw[..CodeLength])
  }

  predicate HasCode(key: string, s: StudentRow) {
    s.code == key
  }

  /** The rows `.eq('student_code', key)` selects. */
  function Matches(students: seq<StudentRow>, key: string): (hits: seq<StudentRow>)
    ensures forall s :: s in hits ==> s.code == key && s in students
    ensures forall s :: s in students && s.code == key ==> s in hits
  {
    Seqs.FilterMembers(students, s => HasCode(key, s));
    Seqs.Filter(students, s => HasCode(key, s))
  }

  /** The session built from the matched row: its id, name and code, its class's name when the
      join finds the class (`data.classes?.name`), and the student role. */
  function SessionOf(s: StudentRow, dir: Directory): (r: Session)
    ensures r.id == s.id && r.name == s.name && r.code == s.code && r.role == StudentRole
    ensures r.className.Some? <==> s.classId in dir.classNames
    ensures r.className.Some? ==> r.className.value == dir.classNames[s.classId]
  {
    Session(s.id, s.name, s.code,
            if s.classId in dir.classNames then Some(dir.classNames[s.classId]) else None,
            StudentRole)
  }

  /** `handleLogin` with the field holding `code`; `lookupOk` says whether the `.single()`
      request itself went through (a request error is reported like a missing student). */
  function HandleLogin(code: string, dir: Directory, lookupOk: bool): (r: LoginResult)
    ensures r == TooShort <==> |code| < CodeLength
    ensures r.LoggedIn? ==>
              && lookupOk
              && |Matches(dir.students, Text.ToUpper(code))| == 1
              && var s := Matches(dir.students, Text.ToUpper(code))[0];
                 && s in dir.students
                 && s.code == Text.ToUpper(code)
                 && r.session.id == s.id && r.session.name == s.name
                 && r.session.code == s.code && r.session.role == StudentRole
                 && (s.classId in dir.classNames ==> r.session.className == Some(dir.classNames[s.classId]))
                 && (s.classId !in dir.classNames ==> r.session.className == None)
    ensures r == NotFound <==>
              |code| >= CodeLength && (!lookupOk || |Matches(dir.students, Text.ToUpper(code))| != 1)
  {
    if |code| < CodeLength then TooShort
    else
      var hits := Matches(dir.students, Text.ToUpper(code));
      if lookupOk && |hits| == 1 then LoggedIn(SessionOf(hits[0], dir)) else NotFound
  }

  /** Typed input passes the length gate exactly when at least 8 characters were typed, and the
      code then looked up has exactly 8 characters. */
  lemma TypedCodeGate(raw: string, dir: Directory, lookupOk: bool)
    ensures HandleLogin(TypedCode(raw), dir, lookupOk) != TooShort <==> |raw| >= CodeLength
    ensures HandleLogin(TypedCode(raw), dir, lookupOk) != TooShort ==> |TypedCode(raw)| == CodeLength
  {
  }

  /** Codes that differ only in letter case log in as the same student (or fail alike). */
  lemma CaseVariantsAgree(a: string, b: string, dir: Directory, lookupOk: bool)
    requires Text.SameIgnoringCase(a, b)
    ensures HandleLogin(a, dir, lookupOk) == HandleLogin(b, dir, lookupOk)
  {
    Text.UpperIdentifiesCaseVariants(a, b);
  }

  /** When exactly one student holds the code, logging in with it, in any letter case, yields
      that student's session with the class name of the student's class, provided the lookup
      request goes through; a failed request refuses even the unique holder. */
  lemma {:induction false} UniqueHolderLogsIn(typed: string, dir: Directory, k: nat, lookupOk: bool)
    requires |typed| >= CodeLength
    requires k < |dir.students| && dir.students[k].code == Text.ToUpper(typed)
    requires forall j :: 0 <= j < |dir.students| && j != k ==> dir.students[j].code != Text.ToUpper(typed)
    ensures HandleLogin(typed, dir, lookupOk) ==
            if lookupOk then LoggedIn(SessionOf(dir.students[k], dir)) else NotFound
  {
    Seqs.FilterSingle(dir.students, s => HasCode(Text.ToUpper(typed), s), k);
  }

  /** Two students holding the same code lock each other out: the lookup fails for both. */
  lemma SharedCodeBlocksLogin(typed: string, dir: Directory, j: nat, k: nat, lookupOk: bool)
    requires |typed| >= CodeLength
    requires j < k < |dir.students| && dir.students[j] != dir.students[k]
    requires dir.students[j].code == Text.ToUpper(typed) && dir.students[k].code == Text.ToUpper(typed)
    ensures HandleLogin(typed, dir, lookupOk) == NotFound
  {
    var hits := Matches(dir.students, Text.ToUpper(typed));
    assert dir.students[j] in hits && dir.students[k] in hits;
  }
}
