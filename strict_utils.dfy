/** `compute_totals_and_ranks` as the earlier, top-level revision of the
    utilities writes it: `data["classes"]` and `data["students"]` are indexed
    directly and `int()` is not guarded, so a missing key or a mark `int()`
    rejects makes the call raise. The sort and the rank loop are the same. */
module StrictUtils {
  import opened Wrappers
  import opened Text
  import opened Records
  import opened RankEngine
  import opened CodeUtils

  /** What made the call raise. */
  datatype RankError = MissingClassesKey | MissingStudentsKey | UnconvertibleMark

  /** Unguarded `int(marks.get(sub, 0))`: None when int() raises. */
  function StrictMarkValue(m: Option<Mark>): (r: Option<int>)
    ensures r.Some? ==> r.value == MarkValue(m)
    ensures r.None? <==> m.Some? && (m.value.OtherMark? || (m.value.StrMark? && ParseInt(m.value.s).None?))
  {
    match m
    case None => Some(0)
    case Some(IntMark(n)) => Some(n)
    case Some(StrMark(s)) => ParseInt(s)
    case Some(OtherMark) => None
  }

  /** The accumulator loop over the subjects, stopped by the first mark int() rejects.
      When it finishes it agrees with the defensive total; it fails exactly
      when some listed subject holds an unconvertible mark. */
  function StrictSum(marks: map<string, Mark>, subjects: seq<string>): (r: Option<int>)
    ensures r.Some? ==> r.value == SumMarks(marks, subjects)
    ensures r.None? <==> exists k :: 0 <= k < |subjects| && StrictMarkValue(Lookup(marks, subjects[k])).None?
  {
    if subjects == [] then Some(0)
    else
      var prefix := subjects[..|subjects| - 1];
      var last := subjects[|subjects| - 1];
      assert forall k :: 0 <= k < |prefix| ==> prefix[k] == subjects[k];
      match StrictSum(marks, prefix)
      case None => None
      case Some(t) =>
        match StrictMarkValue(Lookup(marks, last))
        case None => None
        case Some(v) => Some(t + v)
  }

  /** Some roster entry's total cannot be computed. */
  ghost predicate HasUnconvertibleMark(students: map<string, Student>, cls: ClassRec) {
    exists k :: 0 <= k < |cls.students| && StrictSum(MarksOf(students, cls.students[k]), cls.subjects).None?
  }

  /** `compute_totals_and_ranks(data, class_id)`, strict revision. It raises
      exactly in the three cases below; otherwise it returns what the
      defensive revision returns. */
  method ComputeTotalsAndRanks(doc: Doc, classId: string)
    returns (r: Result<(map<string, Standing>, seq<string>), RankError>)
    ensures doc.classes.None? <==> r == Err(MissingClassesKey)
    ensures doc.classes.Some? && classId !in doc.classes.value ==> r == Ok((map[], []))
    ensures doc.classes.Some? && classId in doc.classes.value ==>
      var cls := doc.classes.value[classId];
      && (r == Err(MissingStudentsKey) <==> doc.students.None? && |cls.students| > 0)
      && (r == Err(UnconvertibleMark) <==> doc.students.Some? && HasUnconvertibleMark(doc.students.value, cls))
      && (r.Ok? <==> !(doc.students.None? && |cls.students| > 0)
                     && !(doc.students.Some? && HasUnconvertibleMark(doc.students.value, cls)))
      && (r.Ok? ==> ClassRanked(doc.students.GetOr(map[]), cls, r.value.0, r.value.1))
  {
    if doc.classes.None? {
      return Err(MissingClassesKey);
    }
    var classes := doc.classes.value;
    if classId !in classes {
      return Ok((map[], []));
    }
    var cls := classes[classId];
    var totals := StrictTotals(doc.students, cls);
    if totals.Err? {
      return Err(totals.error);
    }
    var ranks, order := RankTotals(doc.students.GetOr(map[]), cls, totals.value);
    return Ok((ranks, order));
  }

  /** The loop building the `totals` list over the roster; `data["students"]`
      is only indexed once there is a roster entry to look up. */
  method StrictTotals(students: Option<map<string, Student>>, cls: ClassRec)
    returns (r: Result<seq<Scored>, RankError>)
    ensures r == Err(MissingStudentsKey) <==> students.None? && |cls.students| > 0
    ensures r == Err(UnconvertibleMark) <==> students.Some? && HasUnconvertibleMark(students.value, cls)
    ensures r.Err? ==> r.error != MissingClassesKey
    ensures r.Ok? ==> r.value == ScoresOf(students.GetOr(map[]), cls.students, cls.subjects)
  {
    var totals: seq<Scored> := [];
    var i := 0;
    while i < |cls.students|
      invariant 0 <= i <= |cls.students|
      invariant i > 0 ==> students.Some?
      invariant totals == ScoresOf(students.GetOr(map[]), cls.students[..i], cls.subjects)
      invariant forall k :: 0 <= k < i ==> StrictSum(MarksOf(students.GetOr(map[]), cls.students[k]), cls.subjects).Some?
    {
      if students.None? {
        return Err(MissingStudentsKey);
      }
      var sid := cls.students[i];
      var total := StrictTotal(MarksOf(students.value, sid), cls.subjects);
      if total.None? {
        assert HasUnconvertibleMark(students.value, cls);
        return Err(UnconvertibleMark);
      }
      assert cls.students[..i + 1][..i] == cls.students[..i];
      totals := totals + [Scored(sid, total.value)];
      i := i + 1;
    }
    assert cls.students[..i] == cls.students;
    return Ok(totals);
  }

  /** One student's accumulator loop, returning early at the first mark int() rejects. */
  method StrictTotal(marks: map<string, Mark>, subjects: seq<string>) returns (total: Option<int>)
    ensures total == StrictSum(marks, subjects)
  {
    var t := 0;
    var j := 0;
    while j < |subjects|
      invariant 0 <= j <= |subjects|
      invariant StrictSum(marks, subjects[..j]) == Some(t)
    {
      assert subjects[..j + 1][..j] == subjects[..j];
      var v := StrictMarkValue(Lookup(marks, subjects[j]));
      if v.None? {
        assert StrictSum(marks, subjects[..j + 1]).None?;
        assert StrictSum(marks, subjects).None? by {
          var k :| 0 <= k < j + 1 && StrictMarkValue(Lookup(marks, subjects[..j + 1][k])).None?;
          assert subjects[k] == subjects[..j + 1][k];
        }
        return None;
      }
      t := t + v.value;
      j := j + 1;
    }
    assert subjects[..j] == subjects;
    return Some(t);
  }
}
