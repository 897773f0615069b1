/** The in-memory snapshot `{faculties, students, classes}` that the
    application loads at start-up and rewrites after every change. */
module Records {
  import opened Wrappers
  import opened Text

  /** A stored mark. The application only ever stores integers, but a loaded
      file may hold a string or some other JSON value (null, a list, ...). */
  datatype Mark = IntMark(n: int) | StrMark(s: string) | OtherMark

  datatype Faculty = Faculty(name: string, password: string)

  /** A student record. `firstLogin` is None when the key is absent; every
      reader treats an absent flag as true. */
  datatype Student = Student(
    name: string,
    password: string,
    firstLogin: Option<bool>,
    classId: string,
    rollNo: string,
    marks: map<string, Mark>)

  /** A class record: display name, owning faculty (the session user at
      creation, which may be unset), subject list and roster, both in order. */
  datatype ClassRec = ClassRec(
    name: string,
    faculty: Option<string>,
    students: seq<string>,
    subjects: seq<string>)

  /** The snapshot. `classOrder` is the insertion order of the `classes`
      dictionary, which the class list shows and the class lookup scans. */
  datatype Db = Db(
    faculties: map<string, Faculty>,
    students: map<string, Student>,
    classes: map<string, ClassRec>,
    classOrder: seq<string>)

  /** The top level of a loaded document as the ranking code sees it: either
      key may be missing. */
  datatype Doc = Doc(students: Option<map<string, Student>>, classes: Option<map<string, ClassRec>>)

  function DocOf(db: Db): Doc {
    Doc(Some(db.students), Some(db.classes))
  }

  /** What `load_data` returns for a missing or unreadable file. */
  function EmptyDb(): Db {
    Db(map[], map[], map[], [])
  }

  /** `classOrder` lists every class key exactly once. */
  ghost predicate WellFormed(db: Db) {
    && (forall i, j :: 0 <= i < j < |db.classOrder| ==> db.classOrder[i] != db.classOrder[j])
    && (forall id :: id in db.classes <==> id in db.classOrder)
  }

  /** Every roster entry names an existing student whose class is that class. */
  ghost predicate RostersResolve(db: Db) {
    forall cid, k :: cid in db.classes && 0 <= k < |db.classes[cid].students| ==>
      db.classes[cid].students[k] in db.students &&
      db.students[db.classes[cid].students[k]].classId == cid
  }

  /** No two roster positions of one class hold students with the same roll. */
  ghost predicate RollsUnique(db: Db, cid: string)
    requires cid in db.classes
  {
    var roster := db.classes[cid].students;
    forall i, j :: 0 <= i < j < |roster| && roster[i] in db.students && roster[j] in db.students ==>
      db.students[roster[i]].rollNo != db.students[roster[j]].rollNo
  }

  ghost predicate SubjectsUnique(c: ClassRec) {
    forall i, j :: 0 <= i < j < |c.subjects| ==> c.subjects[i] != c.subjects[j]
  }

  /** No two classes have names that are equal ignoring case. */
  ghost predicate ClassNamesUnique(db: Db) {
    forall a, b :: a in db.classes && b in db.classes && a != b ==>
      Lower(db.classes[a].name) != Lower(db.classes[b].name)
  }

  /** The referential invariants the record operations keep. */
  ghost predicate Consistent(db: Db) {
    && WellFormed(db)
    && RostersResolve(db)
    && (forall cid :: cid in db.classes ==> RollsUnique(db, cid) && SubjectsUnique(db.classes[cid]))
    && ClassNamesUnique(db)
  }

  lemma EmptyDbConsistent()
    ensures Consistent(EmptyDb())
  {
  }
}
