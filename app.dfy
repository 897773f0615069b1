/** The application object of the newer revision: the loaded snapshot and
    the session, changed in place by the handlers. Each handler is proved to
    leave the snapshot as the matching function of Operations describes, so
    the lemmas proved there hold of it. */
module App {
  import opened Wrappers
  import opened Text
  import opened Records
  import opened Identity
  import opened RankEngine
  import opened CodeUtils
  import opened Operations

  class SmsApp {
    var data: Db
    var currentUser: Option<string>
    var currentRole: Option<Role>

    /** The dictionary order covers exactly the class keys. */
    ghost predicate Valid()
      reads this
    {
      WellFormed(data)
    }

    /** Start-up: the loaded snapshot and nobody logged in. */
    constructor (loaded: Db)
      requires WellFormed(loaded)
      ensures Valid() && data == loaded && currentUser == None && currentRole == None
    {
      data := loaded;
      currentUser := None;
      currentRole := None;
    }

    method RegisterFaculty(uname: string, name: string, pwd: string) returns (outcome: Outcome<AppError>)
      requires Valid()
      modifies this
      ensures Valid()
      ensures outcome == OutcomeOf(Operations.RegisterFaculty(old(data), uname, name, pwd))
      ensures data == StateAfter(Operations.RegisterFaculty(old(data), uname, name, pwd), old(data))
      ensures currentUser == old(currentUser) && currentRole == old(currentRole)
      ensures Consistent(old(data)) ==> Consistent(data)
    {
      var u := Strip(uname);
      if u == [] {
        return Fail(EmptyUsername);
      }
      if u in data.faculties {
        return Fail(UsernameTaken);
      }
      if name == [] {
        return Fail(NameRequired);
      }
      if pwd == [] {
        return Fail(PasswordRequired);
      }
      data := data.(faculties := data.faculties[u := Faculty(Strip(name), pwd)]);
      outcome := Pass;
    }

    /** On success the session is the stripped user name with the chosen role. */
    method HandleLogin(role: Role, user: string, pwd: string, newPwd: string) returns (outcome: Outcome<AppError>)
      requires Valid()
      modifies this
      ensures Valid()
      ensures var r := Login(old(data), role, user, pwd, newPwd);
        && outcome == OutcomeOf(r)
        && (r.Ok? ==> data == r.value.0 && currentUser == Some(r.value.1) && currentRole == Some(role))
        && (r.Err? ==> data == old(data) && currentUser == old(currentUser) && currentRole == old(currentRole))
      ensures Consistent(old(data)) ==> Consistent(data)
    {
      var u := Strip(user);
      var p := Strip(pwd);
      ghost var r := LoginAs(data, role, u, p, newPwd);
      assert Login(old(data), role, user, pwd, newPwd) == r;
      if u == [] || p == [] {
        return Fail(MissingCredentials);
      }
      match role {
        case FacultyRole =>
          if u !in data.faculties || data.faculties[u].password != p {
            return Fail(InvalidCredentials);
          }
        case StudentRole =>
          if u !in data.students || data.students[u].password != p {
            return Fail(InvalidCredentials);
          }
          var stu := data.students[u];
          if FirstLoginPending(stu) {
            if newPwd == [] {
              return Fail(NewPasswordRequired);
            }
            data := data.(students := data.students[u := stu.(password := newPwd, firstLogin := Some(false))]);
          }
      }
      assert r == Ok((data, u));
      LoginKeepsInvariants(old(data), role, u, p, newPwd);
      currentUser := Some(u);
      currentRole := Some(role);
      outcome := Pass;
    }

    method Logout()
      modifies this
      ensures currentUser == None && currentRole == None && data == old(data)
    {
      currentUser := None;
      currentRole := None;
    }

    /** The new id is built from the clock reading and the drawn letter. */
    method CreateClass(cname: string, seconds: nat, letter: nat) returns (outcome: Outcome<AppError>)
      requires Valid() && letter < 26
      modifies this
      ensures Valid()
      ensures var r := Operations.CreateClass(old(data), old(currentUser), cname, NewClassId(seconds, letter));
        outcome == OutcomeOf(r) && data == StateAfter(r, old(data))
      ensures currentUser == old(currentUser) && currentRole == old(currentRole)
      ensures Consistent(old(data)) ==> Consistent(data)
    {
      var n := Strip(cname);
      var cid := NewClassId(seconds, letter);
      var r := CheckAndInsertClass(data, currentUser, n, cid);
      if r.Err? {
        return Fail(r.error);
      }
      CreateClassKeepsInvariants(data, currentUser, cname, cid);
      data := r.value;
      outcome := Pass;
    }

    /** `_choose_class_for_faculty`; `selection` is the list's selected entry, if any. */
    method ChooseClassForFaculty(selection: Option<string>) returns (cid: Option<string>)
      requires Valid()
      ensures cid == ChosenClass(data.classOrder, data.classes, selection)
    {
      if selection.None? {
        return None;
      }
      var i := 0;
      while i < |data.classOrder|
        invariant 0 <= i <= |data.classOrder|
        invariant forall j :: 0 <= j < i ==> Label(data.classes[data.classOrder[j]], data.classOrder[j]) != selection.value
      {
        var id := data.classOrder[i];
        if Label(data.classes[id], id) == selection.value {
          assert FirstLabelMatch(data.classOrder, data.classes, selection.value) == i;
          return Some(id);
        }
        i := i + 1;
      }
      cid := None;
    }

    method AddSubjectToClass(selection: Option<string>, sub: string) returns (outcome: Outcome<AppError>)
      requires Valid()
      modifies this
      ensures Valid()
      ensures var cid := SelectedClass(old(data), selection);
        && (cid.None? ==> outcome == Fail(NoClassSelected) && data == old(data))
        && (cid.Some? ==>
              var r := Operations.AddSubjectToClass(old(data), cid.value, sub);
              outcome == OutcomeOf(r) && data == StateAfter(r, old(data)))
      ensures currentUser == old(currentUser) && currentRole == old(currentRole)
      ensures Consistent(old(data)) ==> Consistent(data)
    {
      var cid := ChooseClassForFaculty(selection);
      if cid.None? || cid.value == [] {
        return Fail(NoClassSelected);
      }
      var c := data.classes[cid.value];
      if sub == [] {
        return Fail(SubjectRequired);
      }
      var s := Strip(sub);
      if s in c.subjects {
        return Fail(DuplicateSubject);
      }
      ghost var before := data;
      data := data.(classes := data.classes[cid.value := c.(subjects := c.subjects + [s])]);
      assert Consistent(before) ==> Consistent(data) by {
        if Consistent(before) {
          AddSubjectKeepsConsistent(before, cid.value, sub);
        }
      }
      outcome := Pass;
    }

    /** On success returns the new student's id and temporary password. */
    method RegisterStudentToClass(selection: Option<string>, roll: string, name: string,
                                  idDraws: seq<nat>, pwdDraws: seq<nat>)
      returns (outcome: Outcome<AppError>, issued: Option<(string, string)>)
      requires Valid() && IdDraws(idDraws) && PasswordDraws(pwdDraws)
      modifies this
      ensures Valid()
      ensures var cid := SelectedClass(old(data), selection);
        && (cid.None? ==> outcome == Fail(NoClassSelected) && data == old(data))
        && (cid.Some? ==>
              var r := Operations.RegisterStudentToClass(old(data), cid.value, roll, name, idDraws, pwdDraws);
              outcome == OutcomeOf(r) && data == StateAfter(r, old(data)))
      ensures issued.Some? <==> outcome == Pass
      ensures issued.Some? ==>
        issued.value == (GenerateStudentId(Strip(roll), idDraws), GenerateTempPassword(DefaultPasswordLength, pwdDraws))
      ensures currentUser == old(currentUser) && currentRole == old(currentRole)
      ensures Consistent(old(data)) && GenerateStudentId(Strip(roll), idDraws) !in old(data).students ==>
        Consistent(data)
    {
      var cid := ChooseClassForFaculty(selection);
      if cid.None? || cid.value == [] {
        return Fail(NoClassSelected), None;
      }
      var checked := CheckEnrolment(data, cid.value, roll, name, idDraws, pwdDraws);
      if checked.Err? {
        return Fail(checked.error), None;
      }
      EnrolKeepsConsistent(data, cid.value, roll, name, idDraws, pwdDraws);
      var r := checked.value;
      var sid := GenerateStudentId(r, idDraws);
      var pwd := GenerateTempPassword(DefaultPasswordLength, pwdDraws);
      ghost var after := Enrolled(data, cid.value, sid, NewStudent(cid.value, r, name, pwdDraws));
      data := data.(students := data.students[sid := Student(name, pwd, Some(true), cid.value, r, map[])]);
      var c := data.classes[cid.value];
      data := data.(classes := data.classes[cid.value := c.(students := c.students + [sid])]);
      assert data == after;
      outcome, issued := Pass, Some((sid, pwd));
    }

    /** `save_marks` for the marks form of student `sid`: each entry is read
        (stripped, then int()), and the marks are written in form order until
        the first invalid entry. */
    method SaveMarks(sid: string, entries: seq<(string, string)>) returns (ok: bool)
      requires Valid() && sid in data.students
      modifies this
      ensures Valid()
      ensures (data, ok) == Operations.SaveMarks(old(data), sid, entries)
      ensures currentUser == old(currentUser) && currentRole == old(currentRole)
      ensures Consistent(old(data)) ==> Consistent(data)
    {
      var items := ReadEntries(entries);
      ok := WriteEntries(sid, items);
      assert Consistent(old(data)) ==> Consistent(data) by {
        if Consistent(old(data)) {
          SaveMarksKeepsConsistent(old(data), sid, entries);
        }
      }
    }

    /** The writing loop of `save_marks`: the marks of `sid` are updated in
        place, entry by entry, and the first invalid entry stops the loop. */
    method WriteEntries(sid: string, items: seq<(string, EntryKind)>) returns (ok: bool)
      requires Valid() && sid in data.students
      modifies this
      ensures Valid()
      ensures ok <==> FirstInvalid(items) == |items|
      ensures data == old(data).(students := old(data).students[sid :=
        old(data).students[sid].(marks := WriteMarks(old(data).students[sid].marks, items[..FirstInvalid(items)]))])
      ensures currentUser == old(currentUser) && currentRole == old(currentRole)
    {
      ghost var d0 := data;
      ghost var m0 := data.students[sid].marks;
      var i := 0;
      ok := true;
      while i < |items|
        invariant 0 <= i <= |items|
        invariant forall k :: 0 <= k < i ==> !items[k].1.Invalid?
        invariant data == d0.(students := d0.students[sid := d0.students[sid].(marks := WriteMarks(m0, items[..i]))])
        invariant currentUser == old(currentUser) && currentRole == old(currentRole)
        invariant ok
      {
        var kind := items[i].1;
        if kind.Invalid? {
          ok := false;
          break;
        }
        assert items[..i + 1][..i] == items[..i];
        if kind.Value? {
          var st := data.students[sid];
          data := data.(students := data.students[sid := st.(marks := st.marks[items[i].0 := IntMark(kind.n)])]);
        }
        i := i + 1;
      }
      assert FirstInvalid(items) == i;
    }

    /** `_populate_class_combo`: the entries of the class list. */
    method PopulateClassCombo() returns (values: seq<string>)
      requires Valid()
      ensures values == ComboValues(data, currentUser)
    {
      values := ClassListValues(data.classOrder, data.classes, currentUser);
    }

    /** `_refresh_rank_list`: the rank table's (rank, id, total) rows for the
        selected class, or the failure of the display loop, which looks up
        every ranked id among the student records. */
    method RefreshRankList(selection: Option<string>) returns (shown: Result<seq<RankRow>, AppError>)
      requires Valid()
      ensures var cid := SelectedClass(data, selection);
        && (cid.None? ==> shown == Err(NoClassSelected))
        && (cid.Some? ==>
              && (shown.Ok? || shown == Err(MissingStudentRecord))
              && (shown == Err(MissingStudentRecord) <==> HasDanglingEntry(data.students, data.classes[cid.value]))
              && (shown.Ok? ==> RankTable(data.students, data.classes[cid.value], shown.value)))
    {
      var cid := ChooseClassForFaculty(selection);
      if cid.None? || cid.value == [] {
        return Err(NoClassSelected);
      }
      var students := data.students;
      var cls := data.classes[cid.value];
      var ranks, order := CodeUtils.ComputeTotalsAndRanks(DocOf(data), cid.value);
      RankTableFacts(students, cls, ranks, order);
      var rows := SortRowsByRank(RowsOf(ranks, order));
      RankTableDangling(students, cls, rows);
      var complete := ShowRows(rows, students);
      shown := if complete then Ok(rows) else Err(MissingStudentRecord);
    }
  }

  /** The loop of `_populate_class_combo`: one entry per class of `user`,
      in dictionary order. */
  method ClassListValues(order: seq<string>, classes: map<string, ClassRec>, user: Option<string>)
    returns (values: seq<string>)
    requires forall k :: 0 <= k < |order| ==> order[k] in classes
    ensures values == LabelsOf(classes, FacultyClassIds(order, classes, user))
  {
    ghost var ids: seq<string> := [];
    values := [];
    var i := 0;
    while i < |order|
      invariant 0 <= i <= |order|
      invariant ids == FacultyClassIds(order[..i], classes, user)
      invariant forall k :: 0 <= k < |ids| ==> ids[k] in classes
      invariant values == LabelsOf(classes, ids)
    {
      var id := order[i];
      assert order[..i + 1][..i] == order[..i];
      if classes[id].faculty == user {
        LabelsOfSnoc(classes, ids, id);
        ids := ids + [id];
        values := values + [Label(classes[id], id)];
      }
      i := i + 1;
    }
    assert order[..i] == order;
  }

  /** The checks of `_register_student_to_class` before anything is written;
      on success, the stripped roll number. */
  method CheckEnrolment(db: Db, cid: string, roll: string, name: string, idDraws: seq<nat>, pwdDraws: seq<nat>)
    returns (checked: Result<string, AppError>)
    requires cid in db.classes && IdDraws(idDraws) && PasswordDraws(pwdDraws)
    ensures checked.Err? ==> RegisterStudentToClass(db, cid, roll, name, idDraws, pwdDraws) == Err(checked.error)
    ensures checked.Ok? ==> checked.value == Strip(roll)
    ensures checked.Ok? ==>
      var rec := NewStudent(cid, Strip(roll), name, pwdDraws);
      RegisterStudentToClass(db, cid, roll, name, idDraws, pwdDraws) == Ok(Enrolled(db, cid, GenerateStudentId(Strip(roll), idDraws), rec))
  {
    if roll == [] {
      return Err(RollRequired);
    }
    var r := Strip(roll);
    if !IsDigits(r) {
      return Err(InvalidRoll);
    }
    var check := ScanRoster(db.students, db.classes[cid].students, r);
    if check.Fail? {
      return Err(check.error);
    }
    if name == [] {
      return Err(StudentNameRequired);
    }
    return Ok(r);
  }

  /** The duplicate-roll loop of `_register_student_to_class`: it looks up
      each roster entry's record, in roster order. */
  method ScanRoster(students: map<string, Student>, roster: seq<string>, roll: string) returns (check: Outcome<AppError>)
    ensures check == RosterCheck(students, roster, roll)
  {
    var i := 0;
    while i < |roster|
      invariant 0 <= i <= |roster|
      invariant forall k :: 0 <= k < i ==> roster[k] in students && students[roster[k]].rollNo != roll
    {
      if roster[i] !in students {
        RosterCheckFrom(students, roster, roll, i);
        return Fail(MissingStudentRecord);
      }
      if students[roster[i]].rollNo == roll {
        RosterCheckFrom(students, roster, roll, i);
        return Fail(DuplicateRoll);
      }
      i := i + 1;
    }
    return Pass;
  }

  /** The checks of `_create_class` on the stripped name, then the new
      entry `classes[cid]`. */
  method CheckAndInsertClass(db: Db, user: Option<string>, n: string, cid: string) returns (r: Result<Db, AppError>)
    requires WellFormed(db)
    ensures r == CreateClassAs(db, user, n, cid)
  {
    if n == [] {
      return Err(EmptyClassName);
    }
    if !IsClassName(n) {
      return Err(InvalidClassName);
    }
    var taken := ScanClassNames(db, n);
    if taken {
      return Err(DuplicateClassName);
    }
    return Ok(InsertClass(db, cid, ClassRec(n, user, [], [])));
  }

  /** The duplicate-name loop of `_create_class`: compare the lower-cased
      name with every class's, in dictionary order. */
  method ScanClassNames(db: Db, n: string) returns (taken: bool)
    requires WellFormed(db)
    ensures taken <==> ClassNameTaken(db, n)
  {
    var i := 0;
    while i < |db.classOrder|
      invariant 0 <= i <= |db.classOrder|
      invariant forall k :: 0 <= k < i ==> Lower(db.classes[db.classOrder[k]].name) != Lower(n)
    {
      if Lower(db.classes[db.classOrder[i]].name) == Lower(n) {
        return true;
      }
      i := i + 1;
    }
    forall id | id in db.classes ensures Lower(db.classes[id].name) != Lower(n) {
      var k :| 0 <= k < |db.classOrder| && db.classOrder[k] == id;
    }
    return false;
  }

  /** The display loop of `_refresh_rank_list`: it looks up each row's
      student record and stops at the first id that has none. */
  method ShowRows(rows: seq<RankRow>, students: map<string, Student>) returns (complete: bool)
    ensures complete <==> forall i :: 0 <= i < |rows| ==> rows[i].id in students
  {
    var i := 0;
    while i < |rows|
      invariant 0 <= i <= |rows|
      invariant forall k :: 0 <= k < i ==> rows[k].id in students
    {
      if rows[i].id !in students {
        return false;
      }
      i := i + 1;
    }
    complete := true;
  }

  /** The reading half of `save_marks`: each entry's text is stripped and
      converted with int(); reading has no effects. */
  method ReadEntries(entries: seq<(string, string)>) returns (items: seq<(string, EntryKind)>)
    ensures items == Classify(entries)
  {
    items := [];
    var i := 0;
    while i < |entries|
      invariant 0 <= i <= |entries|
      invariant items == Classify(entries[..i])
    {
      ClassifySnoc(entries, i);
      items := items + [(entries[i].0, KindOf(entries[i].1))];
      i := i + 1;
    }
    assert entries[..i] == entries;
  }
}
