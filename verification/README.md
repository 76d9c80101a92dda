# Classroom points and codes — a Dafny model

This project models the bookkeeping and validation logic of a classroom web app. Teachers create a
class with a 6-character invite code and enroll students, each with an 8-character login code.
Teachers give or take points from a selection of students, with a reason recorded in a point log.
Teachers also write missions. Students log in with their code. Each database table is an
immutable value: a sequence of rows, or a map from student id to stored balance. Every call into
the store becomes a parameter that says whether that call succeeded. Every handler is a pure
function from the screen's state and the store's answers to the new state, the rows sent and the
new store.

Modules, one per file:

- `Options`, `Seqs`: an option type, and order-preserving filter and reverse with the lemmas the rest uses.
- `Text`: ECMAScript `trim` (the exact white-space and line-terminator set) and `toUpperCase` restricted to ASCII.
- `Numbers`: `parseInt` (leading white space, sign, `0x` prefix, longest digit run) and the `parseInt(v) || 0` field fallback.
- `Codes`: the 36-symbol code generators. Random numbers are caller-supplied reals in [0, 1).
- `Records`: the `students` row shared by the roster, the ledger and the login.
- `Classes`: class creation and copying the invite code.
- `Enrollment`: the enrollment roster in `src/components/StudentManager.jsx`.
- `TeacherRoster`: the teacher's roster apart from points, meaning selection, delete and add.
- `PointLedger`: bulk point adjustment, the stored balances and point log, and the history dialog.
- `Login`: student login.
- `Missions`: the mission form and its list.

The main property is about the ledger. After a fully successful bulk adjustment, each student's
stored balance minus the sum of that student's logged amounts is unchanged, provided the listed
balances were current. The source writes the listed balance plus the delta, not the stored one.
When a write fails, only the listed roster is rolled back. A student whose balance update
succeeded keeps the new stored balance. If that student's log insert then failed, the balance is
off from the log by exactly the delta.

## Model

| member | source | states |
|---|---|---|
| Text.Trim | src/components/teacher/StudentManager.jsx:58 | `trim` cuts white space and nothing else off either end: the result is a slice of the input, cut only where the input is white space, and neither begins nor ends with white space |
| Text.BlankIffAllSpace | src/components/teacher/StudentManager.jsx:58 | a text is refused as blank by `!x.trim()` exactly when every character is ECMAScript white space |
| Text.TrimIdempotent | src/components/teacher/StudentManager.jsx:58 | trimming an already trimmed text changes nothing |
| Text.ToUpper | src/components/student/StudentLogin.jsx:60 | upper-casing keeps the length, leaves no lower-case letter, and moves each lower-case letter to its capital while keeping every other character |
| Text.UpperIdempotent | src/components/student/StudentLogin.jsx:60 | upper-casing the field's already upper-cased value changes nothing |
| Text.UpperIdentifiesCaseVariants | src/components/student/StudentLogin.jsx:26 | two texts upper-case to the same key exactly when they differ only in letter case |
| Numbers.NumberInput | src/components/teacher/MissionManager.jsx:215 | a field's new value is the integer `parseInt` read whenever it reads one, and 0 when `parseInt` gives NaN; a non-zero value is always what `parseInt` read |
| Numbers.ParseIntSkipsSpace | src/components/teacher/MissionManager.jsx:215 | `parseInt` ignores white space in front of the number |
| Numbers.NoDigitsGivesZero | src/components/teacher/MissionManager.jsx:215 | text without a decimal digit, including the cleared field, sets the field to 0 |
| Numbers.ParseShow | src/components/teacher/MissionManager.jsx:215 | `parseInt` of an integer's decimal rendering gives that integer back |
| Numbers.NumberInputRoundTrip | src/components/teacher/MissionManager.jsx:231 | typing an integer's decimal rendering into a number field stores that integer |
| Codes.PickIndex | src/components/teacher/ClassManager.jsx:43 | `Math.floor(r * 36)` for `0 <= r < 1` is an index below 36, namely the bucket containing `r` when the product is exact |
| Codes.IndexOfChar | src/components/teacher/ClassManager.jsx:40 | a character has an alphabet position exactly when it is a capital letter or a digit |
| Codes.AlphabetLayout | src/components/teacher/ClassManager.jsx:40 | the alphabet is the 26 capitals in order followed by the 10 digits |
| Codes.CharIndexRoundTrip | src/components/teacher/ClassManager.jsx:40 | every alphabet entry is a capital or digit, found back at its own position |
| Codes.IndexOfCharRoundTrip | src/components/teacher/ClassManager.jsx:40 | every capital or digit sits in the alphabet at the position computed for it |
| Codes.GenerateCode | src/components/teacher/ClassManager.jsx:39-46 | `n` draws give a code of exactly `n` characters, each a capital letter or digit |
| Codes.GenerateCodeAt | src/components/teacher/ClassManager.jsx:43 | character `k` of a code is the alphabet entry chosen by draw `k` |
| Codes.DecodeCode | src/components/teacher/ClassManager.jsx:40 | a text reads back as alphabet positions exactly when every character is in the alphabet |
| Codes.DecodeGenerated | src/components/teacher/ClassManager.jsx:39-46 | reading a generated code back gives exactly the indices its draws selected |
| Codes.DecodeInjective | src/components/teacher/ClassManager.jsx:40 | two alphabet codes with the same positions are the same code |
| Codes.BuildCode | src/components/teacher/ClassManager.jsx:41-45 | the generator loop produces `n` characters, character `k` chosen by draw `k`, and reads back to the drawn indices |
| Codes.InviteCode | src/components/ClassManager.jsx:32-39 | an invite code has exactly 6 characters from `A-Z0-9`, determined by the first 6 draws |
| Codes.LoginCode | src/components/StudentManager.jsx:23-30 | a login code has exactly 8 characters from `A-Z0-9`, determined by the first 8 draws |
| Classes.CreateClass | src/components/teacher/ClassManager.jsx:48-75 | a blank name is refused with nothing sent or changed; otherwise the row holds the name as typed, a fresh 6-character invite code and the teacher's id; a stored row becomes the teacher's class and its id is reported; an insert error changes nothing |
| Classes.WhiteSpaceNameRefused | src/components/ClassManager.jsx:41-45 | a name made only of white space is refused whatever the store would answer |
| Classes.CopyCode | src/components/ClassManager.jsx:70-75 | copying yields the class's invite code and does nothing without a class |
| Records.PointsOf | src/components/teacher/StudentManager.jsx:67 | a missing balance reads as 0, and a present one as itself |
| Records.Ids | src/components/teacher/StudentManager.jsx:128 | the id list has one entry per listed student, in roster order |
| Records.FilterUniqueIds | src/components/teacher/StudentManager.jsx:95 | keeping some rows of a roster with unique ids keeps the ids unique |
| Enrollment.Insert | src/components/StudentManager.jsx:41-47 | an insert appends exactly one row with the class, name and code sent and no balance, keeping the earlier rows |
| Enrollment.InsertValid | src/components/StudentManager.jsx:41-47 | an insert keeps the stamps in order and the ids unique |
| Enrollment.ListStudents | src/components/StudentManager.jsx:14-21 | the fetched roster holds exactly the class's students |
| Enrollment.ListedOldestFirst | src/components/StudentManager.jsx:19 | the roster is in ascending `created_at` order |
| Enrollment.AddStudent | src/components/StudentManager.jsx:32-56 | a blank name is refused before a code is drawn; otherwise the row holds the class, the name as typed and a fresh 8-character code; an error keeps the name; success clears the name and reloads, and a failed reload shows an empty roster |
| Enrollment.AddedStudentListedLast | src/components/StudentManager.jsx:49-54 | after a successful add and reload, the new student is last and the earlier roster precedes it unchanged, still oldest first |
| Login.TypedCode | src/components/student/StudentLogin.jsx:58-60 | the field holds every typed character up to the first 8, each upper-cased, so it is as long as the input when fewer than 8 were typed, exactly 8 otherwise, and holds no lower-case letter |
| Login.SessionOf | src/components/student/StudentLogin.jsx:33-39 | the stored session carries the matched student's id, name and code, the role `STUDENT`, and the class name exactly when the join finds the class |
| Login.Matches | src/components/student/StudentLogin.jsx:23-27 | the lookup selects exactly the students holding the key |
| Login.HandleLogin | src/components/student/StudentLogin.jsx:16-43 | a code under 8 characters is refused before lookup; login succeeds exactly when the lookup request goes through and one student holds the upper-cased code, and the session then holds that student's id, name and code, the class name and role `STUDENT`; otherwise nothing is stored |
| Login.TypedCodeGate | src/components/student/StudentLogin.jsx:17-20 | typed input passes the length gate exactly when at least 8 characters were typed, and the code looked up then has exactly 8 |
| Login.CaseVariantsAgree | src/components/student/StudentLogin.jsx:26 | codes differing only in letter case give the same login result for the same lookup answer |
| Login.UniqueHolderLogsIn | src/components/student/StudentLogin.jsx:29-39 | when exactly one student holds the code, any letter-case variant logs that student in if the lookup request goes through, and is refused if it fails |
| Login.SharedCodeBlocksLogin | src/components/student/StudentLogin.jsx:27-30 | two students holding the same code both fail to log in, whatever the request's answer, because `.single()` needs exactly one row |
| Missions.EditNumber | src/components/teacher/MissionManager.jsx:215 | a number-field edit sets that field to what `parseInt` reads, or 0 when it reads nothing, and keeps every other field |
| Missions.EditNumberRoundTrip | src/components/teacher/MissionManager.jsx:304 | typing an integer's rendering into any number field stores that integer |
| Missions.Insert | src/components/teacher/MissionManager.jsx:68-73 | an insert appends one row with the form and class sent, keeping the earlier rows and the stamp order |
| Missions.ListMissions | src/components/teacher/MissionManager.jsx:33-49 | the fetched list holds exactly the class's missions |
| Missions.ListedNewestFirst | src/components/teacher/MissionManager.jsx:40 | missions are listed in descending `created_at` order |
| Missions.CreateMission | src/components/teacher/MissionManager.jsx:51-93 | a blank title or guide is refused first and a missing class second, both with nothing sent; otherwise the form plus `class_id` is sent; an error keeps the form; success resets the form to the defaults and reloads |
| Missions.ResetFormRefused | src/components/teacher/MissionManager.jsx:79-88 | the reset form cannot be submitted again as it is, because its title is empty |
| Missions.CreatedMissionListedFirst | src/components/teacher/MissionManager.jsx:79-89 | after a successful create and reload, the new mission heads the list, followed by the class's earlier missions, newest first |
| TeacherRoster.ToggleCard | src/components/teacher/StudentManager.jsx:217 | a card click flips the membership of exactly the clicked id and keeps the selection free of duplicates |
| TeacherRoster.ToggleTwice | src/components/teacher/StudentManager.jsx:217 | clicking a card twice restores the selection |
| TeacherRoster.ToggleCardValid | src/components/teacher/StudentManager.jsx:217 | clicking a listed student's card keeps the selection a duplicate-free subset of the roster |
| TeacherRoster.ToggleSelectAll | src/components/teacher/StudentManager.jsx:126-129 | select-all yields either the empty selection or every listed id in roster order |
| TeacherRoster.SelectAllTestExact | src/components/teacher/StudentManager.jsx:127 | on a valid selection, the length comparison holds exactly when every listed student is selected |
| TeacherRoster.SelectAllToggles | src/components/teacher/StudentManager.jsx:126-129 | select-all clears a full selection and otherwise selects every listed student, keeping the selection valid |
| TeacherRoster.CheckboxShowsAllSelected | src/components/teacher/StudentManager.jsx:162 | the select-all checkbox is ticked exactly when there are students and all are selected |
| TeacherRoster.DeleteStudent | src/components/teacher/StudentManager.jsx:90-103 | without a pending target nothing happens; otherwise the dialog is cleared, and only on success that id leaves both the roster and the selection while everything else stays |
| TeacherRoster.DeleteListed | src/components/teacher/StudentManager.jsx:93-96 | deleting a listed student removes exactly its row, keeps the other rows in order, and keeps the selection valid |
| TeacherRoster.AddStudent | src/components/teacher/StudentManager.jsx:114-124 | a blank name is refused; otherwise the row is sent with balance 0; a stored row is appended with balance 0 and the name cleared; an error keeps both |
| TeacherRoster.AddKeepsValid | src/components/teacher/StudentManager.jsx:119-121 | adding a student under a fresh id keeps the selection valid |
| PointLedger.EditAmount | src/components/teacher/StudentManager.jsx:293 | an amount edit stores what `parseInt` reads, or 0 when it reads nothing, and keeps the direction and reason |
| PointLedger.SignedAmount | src/components/teacher/StudentManager.jsx:61 | the signed amount is the amount itself when points are given and its negation when they are taken, also for a negative amount typed into the field |
| PointLedger.DefaultFormGivesTen | src/components/teacher/StudentManager.jsx:24-28 | the dialog's defaults give 10 points with a reason that passes the blank check |
| PointLedger.WriteTarget | src/components/teacher/StudentManager.jsx:75-79 | one student's writes keep the set of stored students; exactly when both writes succeed, one log row with the student, delta, reason and current stamp is appended and the clock advances; otherwise the log and clock are unchanged |
| PointLedger.WriteTargetEffect | src/components/teacher/StudentManager.jsx:75-78 | one student's writes move only that student's balance, and only if the update went through; the log sum grows by the delta only when both writes did |
| PointLedger.Persist | src/components/teacher/StudentManager.jsx:74-81 | the writes keep the set of stored students, keep the existing log rows, add at most as many rows as there are targets, and keep the stamps in order |
| PointLedger.PersistUntouched | src/components/teacher/StudentManager.jsx:74-81 | a student who is not a target keeps its balance and its log sum |
| PointLedger.PersistTarget | src/components/teacher/StudentManager.jsx:75-78 | a target's balance becomes listed balance plus delta unless the update failed; its log sum grows by the delta exactly when both writes succeeded |
| PointLedger.PersistAllWritten | src/components/teacher/StudentManager.jsx:78 | when every write succeeds, exactly one log row per target is appended, in the model's sequential order, with that target's id, the delta and the reason |
| PointLedger.LedgerKeptOnSuccess | src/components/teacher/StudentManager.jsx:74-83 | with current listed balances and every write successful, every student's balance minus log sum is unchanged |
| PointLedger.Optimistic | src/components/teacher/StudentManager.jsx:65-70 | the optimistic roster has the same length and order; each selected student's balance is `(old \|\| 0) + delta` and everyone else is untouched |
| PointLedger.TargetsMembers | src/components/teacher/StudentManager.jsx:62 | the targets are exactly the listed students whose id is selected |
| PointLedger.AllWrittenExactly | src/components/teacher/StudentManager.jsx:62 | every target succeeded exactly when every selected listed student did |
| PointLedger.TargetsInSync | src/components/teacher/StudentManager.jsx:62 | the targets of a roster that agrees with the store agree with it too and have unique ids |
| PointLedger.OptimisticMatchesStore | src/components/teacher/StudentManager.jsx:65-83 | after every write succeeded, the optimistic roster agrees with the stored balances |
| PointLedger.BulkProcessPoints | src/components/teacher/StudentManager.jsx:56-88 | an empty selection or a blank reason changes nothing, locally or in the store; a completed adjustment clears the selection, keeps the pending delete target and counts the selected listed students; any failure restores the listed roster and selection |
| PointLedger.BulkCompletesExactly | src/components/teacher/StudentManager.jsx:56-88 | an adjustment completes exactly when the selection is non-empty, the reason is not blank and every selected listed student's writes succeed; it fails exactly when it passes both refusals and does not complete |
| PointLedger.BulkSuccessShowsOptimistic | src/components/teacher/StudentManager.jsx:61-70 | a completed adjustment lists the optimistic roster for the signed amount, so each selected student is moved by it and everyone else is kept |
| PointLedger.BulkWrites | src/components/teacher/StudentManager.jsx:74-79 | past the two refusals, the store receives the writes for the selected students with the signed amount and reason |
| PointLedger.BulkSuccessKeepsLedger | src/components/teacher/StudentManager.jsx:56-88 | a completed adjustment keeps every student's balance minus log sum and leaves the roster agreeing with the store |
| PointLedger.BulkSuccessLogs | src/components/teacher/StudentManager.jsx:74-83 | a completed adjustment appends exactly one log row per selected student, in roster order (the model's sequential order), with the signed amount and the reason |
| PointLedger.BulkFailureRollsBackOnlyLocally | src/components/teacher/StudentManager.jsx:84-86 | after a failed adjustment, a selected student whose balance update reached the store is stored at the restored listed balance plus the delta |
| PointLedger.LogFailureBreaksLedger | src/components/teacher/StudentManager.jsx:75-78 | a student whose update succeeded but whose log insert failed ends with balance minus log sum off by exactly the delta |
| PointLedger.StaleBalanceShiftsDrift | src/components/teacher/StudentManager.jsx:65-79 | because the written balance is the listed one plus the delta, a completed adjustment of a student listed at a stale balance moves that student's balance minus log sum by the gap between the stored and listed balance |
| PointLedger.StaleBalanceExample | src/components/teacher/StudentManager.jsx:65-79 | a student stored at 5 with an empty log but listed at 0, given 10, ends with balance minus log sum 0 instead of the earlier 5 |
| PointLedger.History | src/components/teacher/StudentManager.jsx:109 | the history holds exactly the student's log rows |
| PointLedger.HistoryNewestFirst | src/components/teacher/StudentManager.jsx:109 | the history is in descending `created_at` order |
| PointLedger.OpenHistory | src/components/teacher/StudentManager.jsx:105-112 | the dialog switches to the student at once; the rows become that student's history on success and stay as they were when the query fails |
| PointLedger.OpenHistoryNewestFirst | src/components/teacher/StudentManager.jsx:109 | a successful query fills the dialog in descending `created_at` order |
| PointLedger.HistoryTotalsLedger | src/components/teacher/StudentManager.jsx:105-112 | the history's amounts add up to the student's log sum, so a student in balance shows a balance equal to the history total |
| PointLedger.OneStudentAdjusted | src/components/teacher/StudentManager.jsx:56-88 | adjusting a one-student roster with every write succeeding completes with count 1, sets listed and stored balance to old plus delta, and appends one log row |
| PointLedger.GiveThenTakeScenario | src/components/teacher/StudentManager.jsx:56-88 | giving 15 then taking 5 from a student at 0 leaves 10 points, listed and stored alike, with a two-entry history, newest first |

## Left out

- Store calls, authentication, profiles and table creation (`src/lib/supabaseClient.js`, `src/App.jsx`, `create_table.js`) are not part of this model. Each store call is a parameter saying whether it succeeded, plus the id and stamp the store assigns.
- PointLedger.Persist: the `Promise.all` fan-out is modelled as the targets written one after another in roster order. Any interleaving gives the same balances and log sums, because each target touches only its own row. The order of log rows between different students is not modelled.
- PointLedger.BulkProcessPoints: the dialog and loading flags and the completion and error alerts are left out. The refusal alert is represented only by the status.
- TeacherRoster.AddStudent: the code `Math.random().toString(36).substring(2, 10).toUpperCase()` depends on how floating-point numbers print in radix 36, which has no stated length, so the code is a parameter.
- The teacher roster's fetch ordered by `name` is left out, because it depends on the database's collation. The roster is taken as given.
- Text.ToUpper: only ASCII letters are mapped. `toUpperCase` also maps other scripts' letters, and some of them change the length.
- Login.HandleLogin: lengths are counted in code points, whereas JavaScript counts UTF-16 units. The two differ only for characters outside the Basic Multilingual Plane.
- Codes.PickIndex: the bucket is computed with exact reals, whereas JavaScript multiplies in doubles. For the double just below some `k/36` (18 such values of `k`), `r * 36` rounds up to `k`, so the source picks index `k` where the model picks `k - 1`. Length and alphabet are unaffected.
- Numbers.ParseInt: integers are exact. `parseInt` returns a double, so digit runs beyond 2^53 lose precision.
- Missions.CreateMission: the class is an option, and only a missing class is refused. The source's `if (!classId)` also refuses the id 0. The store never assigns a falsy id, so this case does not arise.
- `localStorage`, `alert`, `confirm`, clipboard writes, rendering, modal visibility, `toLocaleString` dates and `isAdding`/`isSaving` flags are left out. The session record and the copied text are returned as values instead.
- A NULL `total_points` in the store is read as 0. The enrollment insert sends no balance, so such rows exist. The store's balances are integers, which matches how the writes treat NULL: they store `(t.total_points || 0) + delta`.
- TeacherRoster.DeleteStudent: whatever the store does to a deleted student's point logs (cascade or not) is not modelled.
- Effects on unmount, such as clearing the roster when the class changes, are left out.
