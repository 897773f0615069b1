/** What each handler of the application does to the snapshot once its
    dialogs have been answered, as functions of the old snapshot and the
    answers. The handlers' re-prompt loops become one attempt that fails. */
module Operations {
  import opened Wrappers
  import opened Text
  import opened Records
  import opened Identity
  import opened RankEngine
  import opened CodeUtils

  datatype Role = FacultyRole | StudentRole

  /** The warnings and errors the handlers show, plus the KeyError the
      enrolment roster scan raises on a roster id with no student record. */
  datatype AppError =
    | EmptyUsername | UsernameTaken | NameRequired | PasswordRequired
    | MissingCredentials | InvalidCredentials | NewPasswordRequired
    | EmptyClassName | InvalidClassName | DuplicateClassName
    | SubjectRequired | DuplicateSubject
    | RollRequired | InvalidRoll | DuplicateRoll | MissingStudentRecord | StudentNameRequired
    | NoClassSelected

  function StateAfter(r: Result<Db, AppError>, db: Db): Db {
    if r.Ok? then r.value else db
  }

  function OutcomeOf<T>(r: Result<T, AppError>): Outcome<AppError> {
    if r.Ok? then Pass else Fail(r.error)
  }

  // ---------------------------------------------------------------- faculty registration

  /** `_register_faculty`: the username is stripped and must be new; name and
      password must be non-empty; the name is stored stripped, the password as typed. */
  function RegisterFaculty(db: Db, uname: string, name: string, pwd: string): Result<Db, AppError> {
    var u := Strip(uname);
    if u == [] then Err(EmptyUsername)
    else if u in db.faculties then Err(UsernameTaken)
    else if name == [] then Err(NameRequired)
    else if pwd == [] then Err(PasswordRequired)
    else Ok(db.(faculties := db.faculties[u := Faculty(Strip(name), pwd)]))
  }

  /** Registration succeeds exactly when the stripped username is non-empty
      and new and both the name and the password were given; it then adds
      exactly one account, holding the stripped name and the password as
      typed, and replaces none. */
  lemma RegisterFacultyAddsOne(db: Db, uname: string, name: string, pwd: string)
    ensures var r := RegisterFaculty(db, uname, name, pwd);
      r.Ok? <==> Strip(uname) != [] && Strip(uname) !in db.faculties && name != [] && pwd != []
    ensures var r := RegisterFaculty(db, uname, name, pwd);
      r.Ok? ==>
        && r.value.faculties.Keys == db.faculties.Keys + {Strip(uname)}
        && r.value.faculties[Strip(uname)] == Faculty(Strip(name), pwd)
        && (forall u :: u in db.faculties ==> r.value.faculties[u] == db.faculties[u])
        && r.value.students == db.students && r.value.classes == db.classes
        && r.value.classOrder == db.classOrder
  {
  }

  // ---------------------------------------------------------------- login

  /** A student's first-login flag is set, or absent (read as true). */
  predicate FirstLoginPending(s: Student) {
    s.firstLogin != Some(false)
  }

  /** `_handle_login`: both entries are stripped and must be non-empty; the
      role's record must exist with exactly that password. A student whose
      first-login flag is pending must give a non-empty new password, which
      is stored as typed and clears the flag. Returns the new snapshot and the
      session user. */
  function Login(db: Db, role: Role, user: string, pwd: string, newPwd: string): Result<(Db, string), AppError> {
    LoginAs(db, role, Strip(user), Strip(pwd), newPwd)
  }

  /** The login checks on the stripped user name `u` and password `p`. */
  function LoginAs(db: Db, role: Role, u: string, p: string, newPwd: string): Result<(Db, string), AppError> {
    if u == [] || p == [] then Err(MissingCredentials)
    else match role
      case FacultyRole =>
        if u !in db.faculties || db.faculties[u].password != p then Err(InvalidCredentials)
        else Ok((db, u))
      case StudentRole =>
        if u !in db.students || db.students[u].password != p then Err(InvalidCredentials)
        else if !FirstLoginPending(db.students[u]) then Ok((db, u))
        else if newPwd == [] then Err(NewPasswordRequired)
        else Ok((db.(students := db.students[u := db.students[u].(password := newPwd, firstLogin := Some(false))]), u))
  }

  /** The password of an account. */
  function StoredPassword(db: Db, role: Role, u: string): Option<string> {
    match role
    case FacultyRole => if u in db.faculties then Some(db.faculties[u].password) else None
    case StudentRole => if u in db.students then Some(db.students[u].password) else None
  }

  /** Login succeeds only for an existing account whose stored password equals
      the stripped entry; it changes nothing but, on a student's first login,
      that student's password and flag. */
  lemma LoginChecksStoredPassword(db: Db, role: Role, u: string, p: string, newPwd: string)
    ensures var r := LoginAs(db, role, u, p, newPwd);
      && (r.Ok? ==> r.value.1 == u && u != [] && StoredPassword(db, role, u) == Some(p))
      && (r.Ok? ==> r.value.0.faculties == db.faculties && r.value.0.classes == db.classes
                    && r.value.0.classOrder == db.classOrder && r.value.0.students.Keys == db.students.Keys
                    && (forall s :: s in db.students && s != u ==> r.value.0.students[s] == db.students[s]))
      && (r.Ok? && role == FacultyRole ==> r.value.0 == db)
      && (r.Ok? && role == StudentRole ==>
            u in db.students &&
            (r.value.0.students[u] == db.students[u] ||
             r.value.0.students[u] == db.students[u].(password := newPwd, firstLogin := Some(false))))
  {
  }

  /** Conversely, a faculty account logs in with its stored password and the
      snapshot is left as it was. */
  lemma FacultyLoginSucceeds(db: Db, u: string, p: string, newPwd: string)
    requires u != [] && p != [] && u in db.faculties && db.faculties[u].password == p
    ensures LoginAs(db, FacultyRole, u, p, newPwd) == Ok((db, u))
  {
  }

  /** The first-login gate: a pending student gets in only by giving a new
      password, which replaces the old one and clears the flag; a student
      whose flag is clear gets in without any change. */
  lemma FirstLoginGate(db: Db, u: string, p: string, newPwd: string)
    requires u != [] && u in db.students && p != [] && db.students[u].password == p
    ensures var s := db.students[u];
      var r := LoginAs(db, StudentRole, u, p, newPwd);
      && (FirstLoginPending(s) ==> (r.Ok? <==> newPwd != []))
      && (FirstLoginPending(s) && r.Ok? ==>
            r.value.0.students[u] == s.(password := newPwd, firstLogin := Some(false)))
      && (!FirstLoginPending(s) ==> r == Ok((db, u)))
  {
  }

  /** After a first login, logging in with the new password (if it has no
      surrounding whitespace) succeeds and changes nothing: the gate is passed once. */
  lemma SecondLoginSkipsGate(db: Db, user: string, pwd: string, newPwd: string, anyPwd: string)
    requires Login(db, StudentRole, user, pwd, newPwd).Ok?
    requires FirstLoginPending(db.students[Strip(user)]) && Stripped(newPwd)
    ensures var db' := Login(db, StudentRole, user, pwd, newPwd).value.0;
      Login(db', StudentRole, user, newPwd, anyPwd) == Ok((db', Strip(user)))
  {
    var u := Strip(user);
    var db' := LoginAs(db, StudentRole, u, Strip(pwd), newPwd).value.0;
    assert newPwd != [];
    assert db'.students[u] == db.students[u].(password := newPwd, firstLogin := Some(false));
    StripOfStripped(newPwd);
    assert LoginAs(db', StudentRole, u, newPwd, anyPwd) == Ok((db', u));
  }

  /** A faculty account registered with a password that has no surrounding
      whitespace can log in with that password. */
  lemma RegisterThenLogin(db: Db, uname: string, name: string, pwd: string, anyPwd: string)
    requires RegisterFaculty(db, uname, name, pwd).Ok? && Stripped(pwd)
    ensures var db' := RegisterFaculty(db, uname, name, pwd).value;
      Login(db', FacultyRole, uname, pwd, anyPwd) == Ok((db', Strip(uname)))
  {
    StripOfStripped(pwd);
  }

  /** Passwords are stored as typed but compared with the stripped entry, so
      an account whose stored password starts or ends with whitespace can never
      log in, whatever is typed. */
  lemma PaddedPasswordNeverMatches(db: Db, role: Role, user: string, pwd: string, newPwd: string)
    requires StoredPassword(db, role, Strip(user)).Some?
    requires !Stripped(StoredPassword(db, role, Strip(user)).value)
    ensures Login(db, role, user, pwd, newPwd).Err?
  {
    LoginChecksStoredPassword(db, role, Strip(user), Strip(pwd), newPwd);
    assert Stripped(Strip(pwd));
  }

  // ---------------------------------------------------------------- class creation

  /** `CLASS_NAME_REGEX`, `^\d+[A-Za-z]$`: one or more digits, then one letter. */
  predicate IsClassName(s: string) {
    |s| >= 2 && AllDigits(s[..|s| - 1]) && IsAsciiLetter(s[|s| - 1])
  }

  /** Some existing class has this name, ignoring case. */
  predicate ClassNameTaken(db: Db, n: string) {
    exists id :: id in db.classes && Lower(db.classes[id].name) == Lower(n)
  }

  /** `_create_class`: the stripped name must be non-empty, match the pattern
      and be new ignoring case. The id is not checked: an id already in use
      replaces that class. */
  function CreateClass(db: Db, user: Option<string>, cname: string, cid: string): Result<Db, AppError> {
    CreateClassAs(db, user, Strip(cname), cid)
  }

  /** The checks of `_create_class` on the stripped name `n`. */
  function CreateClassAs(db: Db, user: Option<string>, n: string, cid: string): Result<Db, AppError> {
    if n == [] then Err(EmptyClassName)
    else if !IsClassName(n) then Err(InvalidClassName)
    else if ClassNameTaken(db, n) then Err(DuplicateClassName)
    else Ok(InsertClass(db, cid, ClassRec(n, user, [], [])))
  }

  /** Creation succeeds exactly when the stripped name is non-empty, matches
      the pattern and is new ignoring case. A created class has that name,
      which no class had before ignoring case (not even one stored under a
      reused id), the current user as owner and no students or subjects;
      nothing else changes. */
  lemma CreateClassAddsOne(db: Db, user: Option<string>, cname: string, cid: string)
    ensures var r := CreateClass(db, user, cname, cid);
      r.Ok? <==> Strip(cname) != [] && IsClassName(Strip(cname)) && !ClassNameTaken(db, Strip(cname))
    ensures var r := CreateClass(db, user, cname, cid);
      r.Ok? ==>
        var db' := r.value;
        && IsClassName(db'.classes[cid].name) && db'.classes[cid] == ClassRec(Strip(cname), user, [], [])
        && (forall id :: id in db.classes ==> Lower(db.classes[id].name) != Lower(db'.classes[cid].name))
        && db'.classes.Keys == db.classes.Keys + {cid}
        && (forall id :: id in db.classes && id != cid ==> db'.classes[id] == db.classes[id])
        && db'.faculties == db.faculties && db'.students == db.students
        && (WellFormed(db) ==> WellFormed(db'))
  {
  }

  /** Class ids are never checked for freshness: creating a class under an id
      already in use drops that class's roster and subjects (its dictionary
      position is kept). */
  lemma ClassIdCollisionReplacesClass(db: Db, user: Option<string>, cname: string, cid: string)
    requires cid in db.classes && CreateClass(db, user, cname, cid).Ok?
    ensures var db' := CreateClass(db, user, cname, cid).value;
      db'.classes[cid].students == [] && db'.classes[cid].subjects == [] && db'.classOrder == db.classOrder
  {
  }

  // ---------------------------------------------------------------- subjects

  /** `_add_subject_to_class`: an empty answer is refused; the stripped name
      is appended unless already listed. A blank-only answer passes the
      emptiness test and appends "". */
  function AddSubjectToClass(db: Db, cid: string, sub: string): Result<Db, AppError>
    requires cid in db.classes
  {
    var c := db.classes[cid];
    if sub == [] then Err(SubjectRequired)
    else if Strip(sub) in c.subjects then Err(DuplicateSubject)
    else Ok(db.(classes := db.classes[cid := c.(subjects := c.subjects + [Strip(sub)])]))
  }

  /** A new subject goes at the end, the existing list keeps its order,
      distinct names stay distinct, and no other class or record changes. */
  lemma AddSubjectAppends(db: Db, cid: string, sub: string)
    requires cid in db.classes
    ensures var r := AddSubjectToClass(db, cid, sub);
      && (r.Ok? <==> sub != [] && Strip(sub) !in db.classes[cid].subjects)
      && (r.Ok? ==>
            var s := r.value.classes[cid].subjects;
            && s[..|s| - 1] == db.classes[cid].subjects && s[|s| - 1] == Strip(sub)
            && (SubjectsUnique(db.classes[cid]) ==> SubjectsUnique(r.value.classes[cid]))
            && r.value.classes[cid].students == db.classes[cid].students
            && r.value.classes.Keys == db.classes.Keys
            && (forall id :: id in db.classes && id != cid ==> r.value.classes[id] == db.classes[id])
            && r.value.students == db.students && r.value.faculties == db.faculties)
  {
    var c := db.classes[cid];
    var n := Strip(sub);
    if sub != [] && n !in c.subjects {
      var s := c.subjects + [n];
      assert AddSubjectToClass(db, cid, sub) == Ok(db.(classes := db.classes[cid := c.(subjects := s)]));
      assert s[..|s| - 1] == c.subjects;
      if SubjectsUnique(c) {
        forall i, j | 0 <= i < j < |s| ensures s[i] != s[j] {
          if j == |s| - 1 {
            assert s[i] == c.subjects[i];
          }
        }
      }
    }
  }

  // ---------------------------------------------------------------- enrolment

  /** The roster scan of `_register_student_to_class`, in roster order: the
      first entry with no record raises (KeyError), the first with the same
      roll is a duplicate. */
  function RosterCheck(students: map<string, Student>, roster: seq<string>, roll: string): (r: Outcome<AppError>)
    ensures r == Pass <==>
      forall k :: 0 <= k < |roster| ==> roster[k] in students && students[roster[k]].rollNo != roll
    ensures r == Pass || r == Fail(MissingStudentRecord) || r == Fail(DuplicateRoll)
    ensures (forall k :: 0 <= k < |roster| ==> roster[k] in students) ==> r != Fail(MissingStudentRecord)
  {
    if roster == [] then Pass
    else if roster[0] !in students then Fail(MissingStudentRecord)
    else if students[roster[0]].rollNo == roll then Fail(DuplicateRoll)
    else
      assert forall k :: 1 <= k < |roster| ==> roster[k] == roster[1..][k - 1];
      RosterCheck(students, roster[1..], roll)
  }

  /** Entries that pass the scan can be skipped: the scan's verdict is that of the rest. */
  lemma {:induction false} RosterCheckFrom(students: map<string, Student>, roster: seq<string>, roll: string, i: nat)
    requires i <= |roster|
    requires forall k :: 0 <= k < i ==> roster[k] in students && students[roster[k]].rollNo != roll
    ensures RosterCheck(students, roster, roll) == RosterCheck(students, roster[i..], roll)
  {
    if i > 0 {
      assert forall k :: 0 <= k < i - 1 ==> roster[1..][k] == roster[k + 1];
      RosterCheckFrom(students, roster[1..], roll, i - 1);
      assert roster[1..][i - 1..] == roster[i..];
    }
  }

  predicate IdDraws(draws: seq<nat>) {
    |draws| == 4 && DrawsBelow(draws, 36)
  }

  predicate PasswordDraws(draws: seq<nat>) {
    |draws| == DefaultPasswordLength && DrawsBelow(draws, 62)
  }

  /** The record a new student gets. */
  function NewStudent(cid: string, roll: string, name: string, pwdDraws: seq<nat>): Student
    requires PasswordDraws(pwdDraws)
  {
    Student(name, GenerateTempPassword(DefaultPasswordLength, pwdDraws), Some(true), cid, roll, map[])
  }

  /** The snapshot with `rec` stored under `sid` and `sid` appended to the roster of `cid`. */
  function Enrolled(db: Db, cid: string, sid: string, rec: Student): Db
    requires cid in db.classes
  {
    var c := db.classes[cid];
    db.(students := db.students[sid := rec], classes := db.classes[cid := c.(students := c.students + [sid])])
  }

  /** `_register_student_to_class`: an empty roll is refused; the stripped
      roll must be all digits and not used in the class; a name must be given.
      The generated id is not checked against existing students. */
  function RegisterStudentToClass(db: Db, cid: string, roll: string, name: string,
                                  idDraws: seq<nat>, pwdDraws: seq<nat>): Result<Db, AppError>
    requires cid in db.classes && IdDraws(idDraws) && PasswordDraws(pwdDraws)
  {
    var c := db.classes[cid];
    if roll == [] then Err(RollRequired)
    else
      var r := Strip(roll);
      if !IsDigits(r) then Err(InvalidRoll)
      else
        var check := RosterCheck(db.students, c.students, r);
        if check.Fail? then Err(check.error)
        else if name == [] then Err(StudentNameRequired)
        else
          Ok(Enrolled(db, cid, GenerateStudentId(r, idDraws), NewStudent(cid, r, name, pwdDraws)))
  }

  /** A successful enrolment appends the generated id to the roster and
      stores a record with that class, the stripped roll, the name, a pending
      first login, empty marks and an 8-character alphanumeric password. */
  lemma EnrolmentRecord(db: Db, cid: string, roll: string, name: string, idDraws: seq<nat>, pwdDraws: seq<nat>)
    requires cid in db.classes && IdDraws(idDraws) && PasswordDraws(pwdDraws)
    requires RegisterStudentToClass(db, cid, roll, name, idDraws, pwdDraws).Ok?
    ensures var db' := RegisterStudentToClass(db, cid, roll, name, idDraws, pwdDraws).value;
      var sid := GenerateStudentId(Strip(roll), idDraws);
      && IsDigits(Strip(roll))
      && (forall k :: 0 <= k < |db.classes[cid].students| ==>
            db.students[db.classes[cid].students[k]].rollNo != Strip(roll))
      && db'.classes[cid].students == db.classes[cid].students + [sid]
      && db'.students[sid].classId == cid && db'.students[sid].rollNo == Strip(roll)
      && db'.students[sid].name == name && db'.students[sid].firstLogin == Some(true)
      && db'.students[sid].marks == map[] && |db'.students[sid].password| == 8
      && (forall k :: 0 <= k < 8 ==> IsAsciiAlnum(db'.students[sid].password[k]))
      && RollOfStudentId(sid) == Some(Strip(roll))
      && db'.faculties == db.faculties && db'.classOrder == db.classOrder
      && (forall id :: id in db.classes && id != cid ==> db'.classes[id] == db.classes[id])
      && (forall s :: s in db.students && s != sid ==> db'.students[s] == db.students[s])
  {
    RollOfGeneratedId(Strip(roll), idDraws);
  }

  /** Enrolling the same roll twice into a class whose roster resolves fails
      the second time with DuplicateRoll, leaving the snapshot as the first
      enrolment left it. */
  lemma SecondEnrolmentIsDuplicate(db: Db, cid: string, roll: string, name: string, idDraws: seq<nat>,
                                   pwdDraws: seq<nat>, roll2: string, name2: string, idDraws2: seq<nat>, pwdDraws2: seq<nat>)
    requires RostersResolve(db)
    requires cid in db.classes && IdDraws(idDraws) && PasswordDraws(pwdDraws) && IdDraws(idDraws2) && PasswordDraws(pwdDraws2)
    requires RegisterStudentToClass(db, cid, roll, name, idDraws, pwdDraws).Ok?
    requires roll2 != [] && Strip(roll2) == Strip(roll)
    ensures var db' := RegisterStudentToClass(db, cid, roll, name, idDraws, pwdDraws).value;
      RegisterStudentToClass(db', cid, roll2, name2, idDraws2, pwdDraws2) == Err(DuplicateRoll)
  {
    var r := Strip(roll);
    var sid := GenerateStudentId(r, idDraws);
    var db' := Enrolled(db, cid, sid, NewStudent(cid, r, name, pwdDraws));
    assert RegisterStudentToClass(db, cid, roll, name, idDraws, pwdDraws) == Ok(db');
    assert IsDigits(r);
    var roster := db.classes[cid].students;
    assert db'.classes[cid].students == roster + [sid];
    assert forall k :: 0 <= k < |roster| ==> roster[k] in db.students;
    RosterCheckFindsLast(db'.students, roster, sid, r);
  }

  /** A roster whose entries all have records and whose last entry has the
      roll fails the scan as a duplicate. */
  lemma RosterCheckFindsLast(students: map<string, Student>, roster: seq<string>, sid: string, roll: string)
    requires forall k :: 0 <= k < |roster| ==> roster[k] in students
    requires sid in students && students[sid].rollNo == roll
    ensures RosterCheck(students, roster + [sid], roll) == Fail(DuplicateRoll)
  {
    var s := roster + [sid];
    assert s[|s| - 1] == sid;
    assert forall k :: 0 <= k < |s| ==> s[k] in students by {
      forall k | 0 <= k < |s| ensures s[k] in students {
        if k < |roster| {
          assert s[k] == roster[k];
        }
      }
    }
  }

  /** Student ids are never checked for freshness: an enrolment whose
      generated id already exists replaces that student's record. */
  lemma StudentIdCollisionReplacesRecord(db: Db, cid: string, roll: string, name: string,
                                         idDraws: seq<nat>, pwdDraws: seq<nat>)
    requires cid in db.classes && IdDraws(idDraws) && PasswordDraws(pwdDraws)
    requires RegisterStudentToClass(db, cid, roll, name, idDraws, pwdDraws).Ok?
    requires GenerateStudentId(Strip(roll), idDraws) in db.students
    ensures var db' := RegisterStudentToClass(db, cid, roll, name, idDraws, pwdDraws).value;
      var sid := GenerateStudentId(Strip(roll), idDraws);
      db'.students.Keys == db.students.Keys && db'.students[sid] == NewStudent(cid, Strip(roll), name, pwdDraws)
  {
  }

  // ---------------------------------------------------------------- marks

  /** How `save_marks` reads one entry: blank, a non-negative integer, or
      something that makes it stop (int() fails or the value is negative). */
  datatype EntryKind = Blank | Value(n: nat) | Invalid

  function KindOf(text: string): EntryKind {
    var t := Strip(text);
    if t == [] then Blank
    else match ParseInt(t)
      case None => Invalid
      case Some(v) => if v < 0 then Invalid else Value(v)
  }

  /** How one entry reads: blank exactly when only whitespace was typed; a
      digit string reads as its value; a minus sign before a non-zero digit
      string is rejected; and any value read is the one int() gives for the
      stripped entry. */
  lemma KindOfReadsEntry(text: string)
    ensures KindOf(text).Blank? <==> Strip(text) == []
    ensures IsDigits(Strip(text)) ==> KindOf(text) == Value(DigitsValue(Strip(text)))
    ensures var t := Strip(text);
      |t| > 1 && t[0] == '-' && IsDigits(t[1..]) && DigitsValue(t[1..]) > 0 ==> KindOf(text) == Invalid
    ensures KindOf(text).Value? ==> ParseInt(Strip(text)) == Some(KindOf(text).n as int)
  {
    StripIdempotent(text);
  }

  /** Each entry's subject with how its text reads. */
  function Classify(entries: seq<(string, string)>): (items: seq<(string, EntryKind)>)
    ensures |items| == |entries|
    ensures forall i :: 0 <= i < |entries| ==> items[i] == (entries[i].0, KindOf(entries[i].1))
  {
    seq(|entries|, i requires 0 <= i < |entries| => (entries[i].0, KindOf(entries[i].1)))
  }

  lemma ClassifySnoc(entries: seq<(string, string)>, i: nat)
    requires i < |entries|
    ensures Classify(entries[..i + 1]) == Classify(entries[..i]) + [(entries[i].0, KindOf(entries[i].1))]
  {
    var a, b := Classify(entries[..i + 1]), Classify(entries[..i]) + [(entries[i].0, KindOf(entries[i].1))];
    forall k | 0 <= k < i + 1 ensures a[k] == b[k] {
      assert entries[..i + 1][k] == entries[k];
      if k < i {
        assert entries[..i][k] == entries[k];
      }
    }
  }

  /** The position of the first entry that stops the save, or the number of entries. */
  function FirstInvalid(items: seq<(string, EntryKind)>): (k: nat)
    ensures k <= |items|
    ensures forall i :: 0 <= i < k ==> !items[i].1.Invalid?
    ensures k < |items| ==> items[k].1.Invalid?
  {
    if items == [] then 0
    else if items[0].1.Invalid? then 0
    else
      var k := FirstInvalid(items[1..]);
      assert forall i :: 1 <= i < k + 1 ==> items[i] == items[1..][i - 1];
      1 + k
  }

  /** The marks after writing the given entries in order, blank ones skipped. */
  function WriteMarks(marks: map<string, Mark>, items: seq<(string, EntryKind)>): map<string, Mark> {
    if items == [] then marks
    else
      var prev := WriteMarks(marks, items[..|items| - 1]);
      var e := items[|items| - 1];
      if e.1.Value? then prev[e.0 := IntMark(e.1.n)] else prev
  }

  /** `save_marks` for the form's entries (subject, text) in subject order.
      Marks are written one subject at a time; the first invalid entry stops
      the loop, and what was written before it stays. Returns the snapshot and
      whether the save completed. */
  function SaveMarks(db: Db, sid: string, entries: seq<(string, string)>): (Db, bool)
    requires sid in db.students
  {
    var items := Classify(entries);
    var k := FirstInvalid(items);
    var st := db.students[sid];
    (db.(students := db.students[sid := st.(marks := WriteMarks(st.marks, items[..k]))]), k == |items|)
  }

  predicate DistinctSubjects(items: seq<(string, EntryKind)>) {
    forall i, j :: 0 <= i < j < |items| ==> items[i].0 != items[j].0
  }

  /** The value written for `sub` by the last entry for it that holds one. */
  function WrittenValue(items: seq<(string, EntryKind)>, sub: string): nat {
    if items == [] then 0
    else if items[|items| - 1].0 == sub && items[|items| - 1].1.Value?
    then items[|items| - 1].1.n
    else WrittenValue(items[..|items| - 1], sub)
  }

  predicate WritesTo(items: seq<(string, EntryKind)>, sub: string) {
    exists i :: 0 <= i < |items| && items[i].0 == sub && items[i].1.Value?
  }

  lemma {:induction false} WrittenValueAt(items: seq<(string, EntryKind)>, i: nat)
    requires DistinctSubjects(items) && i < |items| && items[i].1.Value?
    ensures WrittenValue(items, items[i].0) == items[i].1.n
  {
    if i < |items| - 1 {
      var pre := items[..|items| - 1];
      assert pre[i] == items[i];
      WrittenValueAt(pre, i);
    }
  }

  /** After writing, a subject holds the value of its entry if that entry
      holds one, and its old mark otherwise. */
  lemma {:induction false} WriteMarksAt(marks: map<string, Mark>, items: seq<(string, EntryKind)>, sub: string)
    requires DistinctSubjects(items)
    ensures Lookup(WriteMarks(marks, items), sub) ==
      if WritesTo(items, sub) then Some(IntMark(WrittenValue(items, sub))) else Lookup(marks, sub)
  {
    if items != [] {
      var pre := items[..|items| - 1];
      var e := items[|items| - 1];
      assert forall i :: 0 <= i < |pre| ==> pre[i] == items[i];
      WriteMarksAt(marks, pre, sub);
      if e.0 == sub && e.1.Value? {
        assert WritesTo(items, sub);
      } else {
        assert WritesTo(items, sub) <==> WritesTo(pre, sub) by {
          if WritesTo(items, sub) {
            var i :| 0 <= i < |items| && items[i].0 == sub && items[i].1.Value?;
            assert i < |pre|;
          }
        }
      }
    }
  }

  /** Writing the entries before the first invalid one: an entry with a
      value sets its mark; a blank entry, the invalid entry, every later entry
      and every subject not on the form leave the mark as it was. */
  lemma WriteUpToFirstInvalid(marks: map<string, Mark>, items: seq<(string, EntryKind)>, sub: string)
    requires DistinctSubjects(items)
    ensures var k := FirstInvalid(items);
      var after := WriteMarks(marks, items[..k]);
      && (forall i :: 0 <= i < k && items[i].0 == sub && items[i].1.Value? ==>
            Lookup(after, sub) == Some(IntMark(items[i].1.n)))
      && (forall i :: 0 <= i < k && items[i].0 == sub && items[i].1.Blank? ==>
            Lookup(after, sub) == Lookup(marks, sub))
      && (forall i :: k <= i < |items| && items[i].0 == sub ==> Lookup(after, sub) == Lookup(marks, sub))
      && ((forall i :: 0 <= i < |items| ==> items[i].0 != sub) ==> Lookup(after, sub) == Lookup(marks, sub))
  {
    var k := FirstInvalid(items);
    var pre := items[..k];
    assert forall i :: 0 <= i < k ==> pre[i] == items[i];
    WriteMarksAt(marks, pre, sub);
    if WritesTo(pre, sub) {
      var i :| 0 <= i < |pre| && pre[i].0 == sub && pre[i].1.Value?;
      WrittenValueAt(pre, i);
    }
  }

  /** Mark saving is not atomic. For a form with one entry per subject: an
      entry before the first invalid one overwrites its mark if it holds a
      value and leaves it if blank; the invalid entry and every later one
      leave their marks as they were; subjects not on the form are untouched;
      the save reports success exactly when no entry is invalid; no other
      student, class or account changes. */
  lemma SaveMarksNotAtomic(db: Db, sid: string, entries: seq<(string, string)>, sub: string)
    requires sid in db.students && DistinctSubjects(Classify(entries))
    ensures var (db', ok) := SaveMarks(db, sid, entries);
      var items := Classify(entries);
      var k := FirstInvalid(items);
      var before := db.students[sid].marks;
      var after := db'.students[sid].marks;
      && (ok <==> forall i :: 0 <= i < |items| ==> !items[i].1.Invalid?)
      && (forall i :: 0 <= i < k && items[i].0 == sub && items[i].1.Value? ==>
            Lookup(after, sub) == Some(IntMark(items[i].1.n)))
      && (forall i :: 0 <= i < k && items[i].0 == sub && items[i].1.Blank? ==>
            Lookup(after, sub) == Lookup(before, sub))
      && (forall i :: k <= i < |items| && items[i].0 == sub ==> Lookup(after, sub) == Lookup(before, sub))
      && ((forall i :: 0 <= i < |items| ==> items[i].0 != sub) ==> Lookup(after, sub) == Lookup(before, sub))
      && db'.students.Keys == db.students.Keys
      && (forall s :: s in db.students && s != sid ==> db'.students[s] == db.students[s])
      && db'.students[sid] == db.students[sid].(marks := after)
      && db'.faculties == db.faculties && db'.classes == db.classes && db'.classOrder == db.classOrder
  {
    WriteUpToFirstInvalid(db.students[sid].marks, Classify(entries), sub);
  }

  /** `str(marks.get(sub, ""))`: the text the form starts with. */
  function MarkText(m: Option<Mark>): string {
    match m
    case None => ""
    case Some(IntMark(n)) => IntToString(n)
    case Some(StrMark(s)) => s
    case Some(OtherMark) => "None"
  }

  /** The form as it opens: one entry per subject, prefilled with the current mark. */
  function Prefilled(marks: map<string, Mark>, subjects: seq<string>): seq<(string, string)> {
    seq(|subjects|, i requires 0 <= i < |subjects| => (subjects[i], MarkText(Lookup(marks, subjects[i]))))
  }

  /** Saving the form unedited succeeds and leaves the snapshot as it was,
      provided every listed mark is absent or a non-negative integer. */
  lemma UneditedFormRoundTrip(db: Db, sid: string, subjects: seq<string>)
    requires sid in db.students
    requires forall i :: 0 <= i < |subjects| && subjects[i] in db.students[sid].marks ==>
      db.students[sid].marks[subjects[i]].IntMark? && db.students[sid].marks[subjects[i]].n >= 0
    ensures SaveMarks(db, sid, Prefilled(db.students[sid].marks, subjects)) == (db, true)
  {
    var marks := db.students[sid].marks;
    var items := Classify(Prefilled(marks, subjects));
    PrefilledReadsBack(marks, subjects);
    assert FirstInvalid(items) == |items|;
    assert items[..|items|] == items;
    RewriteSameMarks(marks, items);
    assert db.students[sid := db.students[sid].(marks := marks)] == db.students;
  }

  /** Each entry of the unedited form reads as the mark it shows. */
  lemma PrefilledReadsBack(marks: map<string, Mark>, subjects: seq<string>)
    requires forall i :: 0 <= i < |subjects| && subjects[i] in marks ==>
      marks[subjects[i]].IntMark? && marks[subjects[i]].n >= 0
    ensures var items := Classify(Prefilled(marks, subjects));
      forall i :: 0 <= i < |items| ==>
        items[i].0 == subjects[i]
        && items[i].1 == (if subjects[i] in marks then Value(marks[subjects[i]].n) else Blank)
  {
    var items := Classify(Prefilled(marks, subjects));
    forall i | 0 <= i < |items|
      ensures items[i].1 == (if subjects[i] in marks then Value(marks[subjects[i]].n) else Blank)
    {
      if subjects[i] in marks {
        PrefilledMarkReadsBack(marks[subjects[i]].n);
      }
    }
  }

  /** Writing values that the marks already hold changes nothing. */
  lemma {:induction false} RewriteSameMarks(marks: map<string, Mark>, items: seq<(string, EntryKind)>)
    requires forall i :: 0 <= i < |items| && items[i].1.Value? ==>
      items[i].0 in marks && marks[items[i].0] == IntMark(items[i].1.n)
    ensures WriteMarks(marks, items) == marks
  {
    if items != [] {
      var pre := items[..|items| - 1];
      assert forall i :: 0 <= i < |pre| ==> pre[i] == items[i];
      RewriteSameMarks(marks, pre);
    }
  }

  /** A non-negative mark shown in the form reads back as the same value. */
  lemma PrefilledMarkReadsBack(n: int)
    requires n >= 0
    ensures KindOf(IntToString(n)) == Value(n)
  {
    ParseIntToString(n);
    StripOfStripped(IntToString(n));
  }

  // ---------------------------------------------------------------- class list and lookup

  predicate NoDuplicates(s: seq<string>) {
    forall i, j :: 0 <= i < j < |s| ==> s[i] != s[j]
  }

  /** `a` is `b` with some elements left out, in the same order. */
  predicate IsSubsequence(a: seq<string>, b: seq<string>) {
    if a == [] then true
    else if b == [] then false
    else if a[|a| - 1] == b[|b| - 1] then IsSubsequence(a[..|a| - 1], b[..|b| - 1])
    else IsSubsequence(a, b[..|b| - 1])
  }

  /** The classes `_populate_class_combo` lists for a user, built the way its
      loop builds them: walk the class order, keep the user's own classes. */
  function FacultyClassIds(order: seq<string>, classes: map<string, ClassRec>, user: Option<string>): (ids: seq<string>)
    requires forall k :: 0 <= k < |order| ==> order[k] in classes
    ensures forall id :: id in ids <==> id in order && classes[id].faculty == user
    ensures forall k :: 0 <= k < |ids| ==> ids[k] in classes
  {
    if order == [] then []
    else
      var last := order[|order| - 1];
      var rest := FacultyClassIds(order[..|order| - 1], classes, user);
      assert forall id :: id in order <==> id in order[..|order| - 1] || id == last;
      if classes[last].faculty == user then rest + [last] else rest
  }

  /** The list keeps dictionary order: it is the class order with the other
      users' classes left out. */
  lemma {:induction false} FacultyClassIdsInOrder(order: seq<string>, classes: map<string, ClassRec>, user: Option<string>)
    requires forall k :: 0 <= k < |order| ==> order[k] in classes
    requires NoDuplicates(order)
    ensures IsSubsequence(FacultyClassIds(order, classes, user), order)
  {
    if order != [] {
      var init, last := order[..|order| - 1], order[|order| - 1];
      var rest := FacultyClassIds(init, classes, user);
      FacultyClassIdsInOrder(init, classes, user);
      if classes[last].faculty == user {
        assert (rest + [last])[..|rest|] == rest;
      } else if rest != [] {
        assert last !in init;
        assert rest[|rest| - 1] in init;
      }
    }
  }

  /** The text of a class entry in the class list: "<name> (<id>)". */
  function Label(c: ClassRec, cid: string): string {
    c.name + " (" + cid + ")"
  }

  function ComboValues(db: Db, user: Option<string>): seq<string>
    requires WellFormed(db)
  {
    LabelsOf(db.classes, FacultyClassIds(db.classOrder, db.classes, user))
  }

  /** Writing each id's entry text. */
  function LabelsOf(classes: map<string, ClassRec>, ids: seq<string>): (labels: seq<string>)
    requires forall k :: 0 <= k < |ids| ==> ids[k] in classes
    ensures |labels| == |ids|
    ensures forall k :: 0 <= k < |ids| ==> labels[k] == Label(classes[ids[k]], ids[k])
  {
    seq(|ids|, k requires 0 <= k < |ids| => Label(classes[ids[k]], ids[k]))
  }

  /** Distinct classes with well-formed names get distinct entries in the
      class list, so no two entries of the list can be confused. */
  lemma ClassListDistinct(classes: map<string, ClassRec>, ids: seq<string>)
    requires forall k :: 0 <= k < |ids| ==> ids[k] in classes
    requires NoDuplicates(ids)
    requires forall k :: 0 <= k < |ids| ==> IsClassName(classes[ids[k]].name)
    ensures NoDuplicates(LabelsOf(classes, ids))
  {
    var labels := LabelsOf(classes, ids);
    forall i, j | 0 <= i < j < |labels| ensures labels[i] != labels[j] {
      if labels[i] == labels[j] {
        LabelInjective(classes[ids[i]], ids[i], classes[ids[j]], ids[j]);
      }
    }
  }

  lemma LabelsOfSnoc(classes: map<string, ClassRec>, ids: seq<string>, x: string)
    requires forall k :: 0 <= k < |ids| ==> ids[k] in classes
    requires x in classes
    ensures LabelsOf(classes, ids + [x]) == LabelsOf(classes, ids) + [Label(classes[x], x)]
  {
  }

  /** The position of the first class in `order` whose entry text is `text`, or `|order|`. */
  function FirstLabelMatch(order: seq<string>, classes: map<string, ClassRec>, text: string): (k: nat)
    requires forall k :: 0 <= k < |order| ==> order[k] in classes
    ensures k <= |order|
    ensures forall j :: 0 <= j < k ==> Label(classes[order[j]], order[j]) != text
    ensures k < |order| ==> Label(classes[order[k]], order[k]) == text
  {
    if order == [] then 0
    else if Label(classes[order[0]], order[0]) == text then 0
    else
      assert forall k :: 1 <= k < |order| ==> order[k] == order[1..][k - 1];
      1 + FirstLabelMatch(order[1..], classes, text)
  }

  /** `_choose_class_for_faculty`: with an item selected, the first class in
      dictionary order whose entry text equals the selection. */
  function ChosenClass(order: seq<string>, classes: map<string, ClassRec>, selection: Option<string>): (r: Option<string>)
    requires forall k :: 0 <= k < |order| ==> order[k] in classes
    ensures selection.None? ==> r.None?
    ensures r.Some? ==> selection.Some? && r.value in classes && Label(classes[r.value], r.value) == selection.value
    ensures selection.Some? && r.None? ==>
      forall k :: 0 <= k < |order| ==> Label(classes[order[k]], order[k]) != selection.value
  {
    if selection.None? then None
    else
      var k := FirstLabelMatch(order, classes, selection.value);
      if k < |order| then Some(order[k]) else None
  }

  /** The class a handler works on: the chosen class, unless nothing is
      chosen or its id is empty (the handlers test the id's truth value). */
  function SelectedClass(db: Db, selection: Option<string>): (r: Option<string>)
    requires WellFormed(db)
    ensures r.Some? ==> r.value in db.classes && r.value != []
  {
    var c := ChosenClass(db.classOrder, db.classes, selection);
    if c.Some? && c.value != [] then c else None
  }

  /** When every class has a well-formed name, choosing an entry of the
      user's class list finds the class that entry was made from. */
  lemma ComboSelectionResolves(db: Db, user: Option<string>, i: nat)
    requires WellFormed(db)
    requires forall id :: id in db.classes ==> IsClassName(db.classes[id].name)
    requires i < |ComboValues(db, user)|
    ensures ChosenClass(db.classOrder, db.classes, Some(ComboValues(db, user)[i])) ==
      Some(FacultyClassIds(db.classOrder, db.classes, user)[i])
  {
    var ids := FacultyClassIds(db.classOrder, db.classes, user);
    var sel := ComboValues(db, user)[i];
    var r := ChosenClass(db.classOrder, db.classes, Some(sel));
    assert ids[i] in db.classOrder;
    var k :| 0 <= k < |db.classOrder| && db.classOrder[k] == ids[i];
    assert Label(db.classes[db.classOrder[k]], db.classOrder[k]) == sel;
    assert r.Some?;
    LabelInjective(db.classes[r.value], r.value, db.classes[ids[i]], ids[i]);
  }

  /** Two classes with well-formed names have different list entries, so
      looking a class up by its list entry finds that class. */
  lemma LabelInjective(c1: ClassRec, id1: string, c2: ClassRec, id2: string)
    requires IsClassName(c1.name) && IsClassName(c2.name)
    requires Label(c1, id1) == Label(c2, id2)
    ensures c1.name == c2.name && id1 == id2
  {
    var l := Label(c1, id1);
    var n1, n2 := |c1.name|, |c2.name|;
    assert forall k :: 0 <= k < n1 ==> l[k] == c1.name[k] && l[k] != ' ';
    assert forall k :: 0 <= k < n2 ==> l[k] == c2.name[k] && l[k] != ' ';
    assert l[n1] == ' ' && l[n2] == ' ';
    assert n1 == n2;
    assert c1.name == l[..n1] == c2.name;
    assert id1 == l[n1 + 2..|l| - 1] == id2;
  }

  // ---------------------------------------------------------------- rank list

  /** One row of the rank table: (rank, student id, total). */
  datatype RankRow = RankRow(rank: int, id: string, total: int)

  /** `[(info["rank"], sid, info["total"]) for sid, info in ranks.items()]`. */
  function RowsOf(ranks: map<string, Standing>, order: seq<string>): seq<RankRow>
    requires forall k :: 0 <= k < |order| ==> order[k] in ranks
  {
    seq(|order|, k requires 0 <= k < |order| => RankRow(ranks[order[k]].rank, order[k], ranks[order[k]].total))
  }

  predicate RankAscending(rows: seq<RankRow>) {
    forall i, j :: 0 <= i < j < |rows| ==> rows[i].rank <= rows[j].rank
  }

  function InsertByRank(x: RankRow, s: seq<RankRow>): (r: seq<RankRow>)
    requires RankAscending(s)
    ensures |r| == |s| + 1 && (r[0] == x || (s != [] && r[0] == s[0]))
    ensures RankAscending(r) && multiset(r) == multiset(s) + multiset{x}
  {
    if s == [] || x.rank <= s[0].rank then [x] + s
    else
      var rest := InsertByRank(x, s[1..]);
      assert s == [s[0]] + s[1..];
      assert |s| > 1 ==> s[0].rank <= s[1].rank;
      [s[0]] + rest
  }

  /** `sorted(rows, key=lambda x: x[0])`: ascending by rank; a stable sort. */
  function SortRowsByRank(s: seq<RankRow>): (r: seq<RankRow>)
    ensures RankAscending(r) && multiset(r) == multiset(s)
  {
    if s == [] then []
    else
      assert s == [s[0]] + s[1..];
      InsertByRank(s[0], SortRowsByRank(s[1..]))
  }

  /** Being stable, the sort leaves rows that are already in rank order alone. */
  lemma {:induction false} SortRowsByRankKeepsSorted(s: seq<RankRow>)
    requires RankAscending(s)
    ensures SortRowsByRank(s) == s
  {
    if s != [] {
      SortRowsByRankKeepsSorted(s[1..]);
      assert s == [s[0]] + s[1..];
    }
  }

  /** The rank table for a class: every roster id once, with its total and
      competition rank, ascending by rank and, within a rank, by id. */
  ghost predicate RankTable(students: map<string, Student>, cls: ClassRec, rows: seq<RankRow>) {
    var scores := ScoresOf(students, cls.students, cls.subjects);
    && (forall sid :: sid in cls.students <==> exists i :: 0 <= i < |rows| && rows[i].id == sid)
    && (forall i :: 0 <= i < |rows| ==>
          rows[i].total == TotalOf(students, rows[i].id, cls.subjects)
          && rows[i].rank == RankOf(scores, rows[i].total))
    && (forall i, j :: 0 <= i < j < |rows| ==>
          rows[i].rank < rows[j].rank || (rows[i].rank == rows[j].rank && StrLess(rows[i].id, rows[j].id)))
  }

  /** Some roster entry of the class has no student record. */
  predicate HasDanglingEntry(students: map<string, Student>, cls: ClassRec) {
    exists k :: 0 <= k < |cls.students| && cls.students[k] !in students
  }

  /** The table lists an id with no student record exactly when the roster holds one. */
  lemma RankTableDangling(students: map<string, Student>, cls: ClassRec, rows: seq<RankRow>)
    requires RankTable(students, cls, rows)
    ensures HasDanglingEntry(students, cls) <==> exists i :: 0 <= i < |rows| && rows[i].id !in students
  {
    if HasDanglingEntry(students, cls) {
      var k :| 0 <= k < |cls.students| && cls.students[k] !in students;
      assert cls.students[k] in cls.students;
    }
    if exists i :: 0 <= i < |rows| && rows[i].id !in students {
      var i :| 0 <= i < |rows| && rows[i].id !in students;
      assert rows[i].id in cls.students;
    }
  }

  /** The rows `_refresh_rank_list` builds and sorts form the rank table. */
  lemma RankTableFacts(students: map<string, Student>, cls: ClassRec, ranks: map<string, Standing>, order: seq<string>)
    requires ClassRanked(students, cls, ranks, order)
    ensures forall k :: 0 <= k < |order| ==> order[k] in ranks
    ensures RankTable(students, cls, SortRowsByRank(RowsOf(ranks, order)))
  {
    RowsOfRankOrdered(students, cls, ranks, order);
    SortRowsByRankKeepsSorted(RowsOf(ranks, order));
    RowsOfContents(students, cls, ranks, order);
  }

  /** The rows list each roster id, with its total and rank. */
  lemma RowsOfContents(students: map<string, Student>, cls: ClassRec, ranks: map<string, Standing>, order: seq<string>)
    requires ClassRanked(students, cls, ranks, order)
    ensures forall k :: 0 <= k < |order| ==> order[k] in ranks
    ensures var rows := RowsOf(ranks, order);
      var scores := ScoresOf(students, cls.students, cls.subjects);
      && (forall sid :: sid in cls.students <==> exists i :: 0 <= i < |rows| && rows[i].id == sid)
      && (forall i :: 0 <= i < |rows| ==>
            rows[i].total == TotalOf(students, rows[i].id, cls.subjects)
            && rows[i].rank == RankOf(scores, rows[i].total))
  {
    assert forall k :: 0 <= k < |order| ==> order[k] in ranks;
    var rows := RowsOf(ranks, order);
    forall sid | sid in cls.students ensures exists i :: 0 <= i < |rows| && rows[i].id == sid {
      assert sid in order;
      var i :| 0 <= i < |order| && order[i] == sid;
      assert rows[i].id == sid;
    }
  }

  /** The result dictionary's items, in insertion order, are already in rank
      order, and rows with equal rank are in ascending id order. */
  lemma RowsOfRankOrdered(students: map<string, Student>, cls: ClassRec, ranks: map<string, Standing>, order: seq<string>)
    requires ClassRanked(students, cls, ranks, order)
    ensures forall k :: 0 <= k < |order| ==> order[k] in ranks
    ensures var rows := RowsOf(ranks, order);
      forall i, j :: 0 <= i < j < |rows| ==>
        rows[i].rank < rows[j].rank || (rows[i].rank == rows[j].rank && StrLess(rows[i].id, rows[j].id))
  {
    assert forall k :: 0 <= k < |order| ==> order[k] in ranks;
    var rows := RowsOf(ranks, order);
    forall i, j | 0 <= i < j < |rows|
      ensures rows[i].rank < rows[j].rank || (rows[i].rank == rows[j].rank && StrLess(rows[i].id, rows[j].id))
    {
      LeaderboardFacts(students, cls, ranks, order, order[i], order[j]);
    }
  }

  // ---------------------------------------------------------------- invariants kept

  /** Every handler keeps the snapshot consistent: the class order lists each
      class once, rosters resolve to students of that class, rolls and subjects
      are unique per class and class names are unique ignoring case. Enrolment
      needs the generated id to be new, since ids are not checked. */
  lemma RegisterFacultyKeepsConsistent(db: Db, uname: string, name: string, pwd: string)
    requires Consistent(db) && RegisterFaculty(db, uname, name, pwd).Ok?
    ensures Consistent(RegisterFaculty(db, uname, name, pwd).value)
  {
  }

  /** `db'` differs from `db` at most in accounts and in students' names,
      passwords, flags and marks. */
  ghost predicate SamePlacement(db: Db, db': Db) {
    && db'.classes == db.classes && db'.classOrder == db.classOrder
    && db'.students.Keys == db.students.Keys
    && (forall s :: s in db.students ==>
          db'.students[s].classId == db.students[s].classId && db'.students[s].rollNo == db.students[s].rollNo)
  }

  lemma SamePlacementKeepsConsistent(db: Db, db': Db)
    requires Consistent(db) && SamePlacement(db, db')
    ensures Consistent(db')
  {
    forall cid | cid in db'.classes ensures RollsUnique(db', cid) {
      assert RollsUnique(db, cid);
    }
  }

  lemma LoginKeepsConsistent(db: Db, role: Role, u: string, p: string, newPwd: string)
    requires Consistent(db) && LoginAs(db, role, u, p, newPwd).Ok?
    ensures Consistent(LoginAs(db, role, u, p, newPwd).value.0)
  {
    var db' := LoginAs(db, role, u, p, newPwd).value.0;
    assert SamePlacement(db, db');
    SamePlacementKeepsConsistent(db, db');
  }

  /** What the application object needs after a login. */
  lemma LoginKeepsInvariants(db: Db, role: Role, u: string, p: string, newPwd: string)
    requires WellFormed(db) && LoginAs(db, role, u, p, newPwd).Ok?
    ensures WellFormed(LoginAs(db, role, u, p, newPwd).value.0)
    ensures Consistent(db) ==> Consistent(LoginAs(db, role, u, p, newPwd).value.0)
  {
    if Consistent(db) {
      LoginKeepsConsistent(db, role, u, p, newPwd);
    }
  }

  lemma CreateClassKeepsConsistent(db: Db, user: Option<string>, cname: string, cid: string)
    requires Consistent(db) && CreateClass(db, user, cname, cid).Ok?
    ensures Consistent(CreateClass(db, user, cname, cid).value)
  {
    CreateClassAddsOne(db, user, cname, cid);
    InsertEmptyClassKeepsConsistent(db, cid, ClassRec(Strip(cname), user, [], []));
  }

  /** What the application object needs after a class is created. */
  lemma CreateClassKeepsInvariants(db: Db, user: Option<string>, cname: string, cid: string)
    requires WellFormed(db) && CreateClass(db, user, cname, cid).Ok?
    ensures WellFormed(CreateClass(db, user, cname, cid).value)
    ensures Consistent(db) ==> Consistent(CreateClass(db, user, cname, cid).value)
  {
    CreateClassAddsOne(db, user, cname, cid);
    if Consistent(db) {
      CreateClassKeepsConsistent(db, user, cname, cid);
    }
  }

  /** `classes[cid] = c`, with the id appended to the order when it is new. */
  function InsertClass(db: Db, cid: string, c: ClassRec): Db {
    db.(classes := db.classes[cid := c],
        classOrder := if cid in db.classes then db.classOrder else db.classOrder + [cid])
  }

  lemma InsertEmptyClassKeepsConsistent(db: Db, cid: string, c: ClassRec)
    requires Consistent(db) && c.students == [] && c.subjects == []
    requires forall id :: id in db.classes && id != cid ==> Lower(db.classes[id].name) != Lower(c.name)
    ensures Consistent(InsertClass(db, cid, c))
  {
    var db' := InsertClass(db, cid, c);
    InsertClassWellFormed(db, cid, c);
    forall k | k in db'.classes ensures RollsUnique(db', k) && SubjectsUnique(db'.classes[k]) {
      if k != cid {
        assert RollsUnique(db, k);
      }
    }
  }

  lemma InsertClassWellFormed(db: Db, cid: string, c: ClassRec)
    requires WellFormed(db)
    ensures WellFormed(InsertClass(db, cid, c))
  {
    if cid !in db.classes {
      var o := db.classOrder;
      assert forall i :: 0 <= i < |o| ==> (o + [cid])[i] == o[i];
    }
  }

  lemma AddSubjectKeepsConsistent(db: Db, cid: string, sub: string)
    requires Consistent(db) && cid in db.classes && AddSubjectToClass(db, cid, sub).Ok?
    ensures Consistent(AddSubjectToClass(db, cid, sub).value)
  {
    AddSubjectAppends(db, cid, sub);
    var c := db.classes[cid];
    var c' := c.(subjects := c.subjects + [Strip(sub)]);
    assert AddSubjectToClass(db, cid, sub).value == db.(classes := db.classes[cid := c']);
    ReplaceClassKeepsConsistent(db, cid, c');
  }

  /** Replacing a class by one with the same name and roster and distinct
      subjects keeps the snapshot consistent. */
  lemma ReplaceClassKeepsConsistent(db: Db, cid: string, c': ClassRec)
    requires Consistent(db) && cid in db.classes && SubjectsUnique(c')
    requires c'.name == db.classes[cid].name && c'.students == db.classes[cid].students
    ensures Consistent(db.(classes := db.classes[cid := c']))
  {
    var db' := db.(classes := db.classes[cid := c']);
    forall k | k in db'.classes ensures RollsUnique(db', k) && SubjectsUnique(db'.classes[k]) {
      assert RollsUnique(db, k);
    }
  }

  lemma EnrolKeepsConsistent(db: Db, cid: string, roll: string, name: string, idDraws: seq<nat>, pwdDraws: seq<nat>)
    requires cid in db.classes && IdDraws(idDraws) && PasswordDraws(pwdDraws)
    requires RegisterStudentToClass(db, cid, roll, name, idDraws, pwdDraws).Ok?
    ensures Consistent(db) && GenerateStudentId(Strip(roll), idDraws) !in db.students ==>
      Consistent(RegisterStudentToClass(db, cid, roll, name, idDraws, pwdDraws).value)
  {
    var r := Strip(roll);
    var sid, rec := GenerateStudentId(r, idDraws), NewStudent(cid, r, name, pwdDraws);
    assert RosterCheck(db.students, db.classes[cid].students, r) == Pass;
    assert RegisterStudentToClass(db, cid, roll, name, idDraws, pwdDraws).value == Enrolled(db, cid, sid, rec);
    if Consistent(db) && sid !in db.students {
      EnrolledKeepsConsistent(db, cid, sid, rec);
    }
  }

  /** Storing a new student of class `cid` whose roll is not on that roster,
      and appending it to the roster, keeps the snapshot consistent. */
  lemma EnrolledKeepsConsistent(db: Db, cid: string, sid: string, rec: Student)
    requires Consistent(db) && cid in db.classes && sid !in db.students && rec.classId == cid
    requires forall k :: 0 <= k < |db.classes[cid].students| ==>
      db.students[db.classes[cid].students[k]].rollNo != rec.rollNo
    ensures Consistent(Enrolled(db, cid, sid, rec))
  {
    var db' := Enrolled(db, cid, sid, rec);
    EnrolledRostersResolve(db, cid, sid, rec);
    forall c | c in db'.classes ensures RollsUnique(db', c) && SubjectsUnique(db'.classes[c]) {
      assert RollsUnique(db, c);
      if c == cid {
        EnrolledRollsUnique(db, cid, sid, rec);
      } else {
        assert db'.classes[c] == db.classes[c];
        assert forall k :: 0 <= k < |db.classes[c].students| ==> db.classes[c].students[k] != sid;
      }
    }
  }

  lemma EnrolledRostersResolve(db: Db, cid: string, sid: string, rec: Student)
    requires RostersResolve(db) && cid in db.classes && sid !in db.students && rec.classId == cid
    ensures RostersResolve(Enrolled(db, cid, sid, rec))
  {
    var db' := Enrolled(db, cid, sid, rec);
    var roster := db.classes[cid].students;
    forall c, k | c in db'.classes && 0 <= k < |db'.classes[c].students|
      ensures db'.classes[c].students[k] in db'.students
      ensures db'.students[db'.classes[c].students[k]].classId == c
    {
      if c == cid && k < |roster| {
        assert db'.classes[c].students[k] == roster[k];
      } else if c != cid {
        assert db'.classes[c] == db.classes[c];
      }
    }
  }

  lemma EnrolledRollsUnique(db: Db, cid: string, sid: string, rec: Student)
    requires cid in db.classes && sid !in db.students && RollsUnique(db, cid)
    requires forall k :: 0 <= k < |db.classes[cid].students| ==> db.classes[cid].students[k] in db.students
    requires forall k :: 0 <= k < |db.classes[cid].students| ==>
      db.students[db.classes[cid].students[k]].rollNo != rec.rollNo
    ensures RollsUnique(Enrolled(db, cid, sid, rec), cid)
  {
    var db' := Enrolled(db, cid, sid, rec);
    var roster := db.classes[cid].students;
    var roster' := db'.classes[cid].students;
    forall i, j | 0 <= i < j < |roster'| && roster'[i] in db'.students && roster'[j] in db'.students
      ensures db'.students[roster'[i]].rollNo != db'.students[roster'[j]].rollNo
    {
      assert roster'[i] == roster[i];
      if j < |roster| {
        assert roster'[j] == roster[j];
      }
    }
  }

  lemma SaveMarksKeepsConsistent(db: Db, sid: string, entries: seq<(string, string)>)
    requires Consistent(db) && sid in db.students
    ensures Consistent(SaveMarks(db, sid, entries).0)
  {
    var db' := SaveMarks(db, sid, entries).0;
    assert SamePlacement(db, db');
    SamePlacementKeepsConsistent(db, db');
  }
}
