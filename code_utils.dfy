/** `compute_totals_and_ranks` as the later revision of the utilities writes
    it: every lookup has a default and a mark `int()` cannot convert counts 0. */
module CodeUtils {
  import opened Wrappers
  import opened Text
  import opened Records
  import opened RankEngine

  function Lookup(marks: map<string, Mark>, subject: string): Option<Mark> {
    if subject in marks then Some(marks[subject]) else None
  }

  /** `int(marks.get(sub, 0))` inside `try/except Exception`: an absent mark
      is int(0), an unconvertible string or any other value counts 0. */
  function MarkValue(m: Option<Mark>): int {
    match m
    case None => 0
    case Some(IntMark(n)) => n
    case Some(StrMark(s)) => ParseInt(s).GetOr(0)
    case Some(OtherMark) => 0
  }

  /** `data.get("students", {}).get(sid, {}).get("marks", {})`. */
  function MarksOf(students: map<string, Student>, sid: string): map<string, Mark> {
    if sid in students then students[sid].marks else map[]
  }

  /** The value of a student's marks summed over `subjects`, in list order. */
  function SumMarks(marks: map<string, Mark>, subjects: seq<string>): int {
    if subjects == [] then 0
    else SumMarks(marks, subjects[..|subjects| - 1]) + MarkValue(Lookup(marks, subjects[|subjects| - 1]))
  }

  function TotalOf(students: map<string, Student>, sid: string, subjects: seq<string>): int {
    SumMarks(MarksOf(students, sid), subjects)
  }

  /** The `totals` list before sorting: one pair per roster entry, in roster order. */
  function ScoresOf(students: map<string, Student>, roster: seq<string>, subjects: seq<string>): seq<Scored> {
    if roster == [] then []
    else ScoresOf(students, roster[..|roster| - 1], subjects)
         + [Scored(roster[|roster| - 1], TotalOf(students, roster[|roster| - 1], subjects))]
  }

  /** The `totals` list holds one pair per roster entry, in roster order. */
  lemma {:induction false} ScoresOfIndexed(students: map<string, Student>, roster: seq<string>, subjects: seq<string>)
    ensures |ScoresOf(students, roster, subjects)| == |roster|
    ensures forall k :: 0 <= k < |roster| ==>
      ScoresOf(students, roster, subjects)[k] == Scored(roster[k], TotalOf(students, roster[k], subjects))
  {
    if roster != [] {
      ScoresOfIndexed(students, roster[..|roster| - 1], subjects);
    }
  }

  /** The pairs of the `totals` list are exactly the roster entries with their totals. */
  lemma ScoresOfMembers(students: map<string, Student>, roster: seq<string>, subjects: seq<string>)
    ensures |ScoresOf(students, roster, subjects)| == |roster|
    ensures forall k :: 0 <= k < |roster| ==>
      ScoresOf(students, roster, subjects)[k] == Scored(roster[k], TotalOf(students, roster[k], subjects))
    ensures forall e :: e in ScoresOf(students, roster, subjects) <==>
      e.id in roster && e.total == TotalOf(students, e.id, subjects)
  {
    ScoresOfIndexed(students, roster, subjects);
    var sc := ScoresOf(students, roster, subjects);
    forall e: Scored | e.id in roster && e.total == TotalOf(students, e.id, subjects) ensures e in sc {
      var k :| 0 <= k < |roster| && roster[k] == e.id;
      assert sc[k] == e;
    }
  }

  /** The result dictionary of one class: keys are exactly the roster ids;
      each value is the student's total and the competition rank of that
      total among the roster's totals; keys were inserted in (-total, id) order. */
  ghost predicate ClassRanked(students: map<string, Student>, cls: ClassRec,
                              ranks: map<string, Standing>, order: seq<string>) {
    var scores := ScoresOf(students, cls.students, cls.subjects);
    && (forall sid :: sid in ranks <==> sid in cls.students)
    && (forall sid :: sid in ranks ==>
          ranks[sid] == Standing(TotalOf(students, sid, cls.subjects),
                                 RankOf(scores, TotalOf(students, sid, cls.subjects))))
    && (forall sid :: sid in ranks <==> sid in order)
    && KeysOrdered(ranks, order)
  }

  lemma RankedIsClassRanked(students: map<string, Student>, cls: ClassRec,
                            ranks: map<string, Standing>, order: seq<string>)
    requires Ranked(ranks, order, ScoresOf(students, cls.students, cls.subjects))
    ensures ClassRanked(students, cls, ranks, order)
  {
    var scores := ScoresOf(students, cls.students, cls.subjects);
    ScoresOfMembers(students, cls.students, cls.subjects);
    forall sid | sid in cls.students ensures sid in ranks {
      assert Scored(sid, TotalOf(students, sid, cls.subjects)) in scores;
    }
    forall sid | sid in ranks
      ensures sid in cls.students
      ensures ranks[sid] == Standing(TotalOf(students, sid, cls.subjects), RankOf(scores, TotalOf(students, sid, cls.subjects)))
    {
      var e :| e in scores && e.id == sid;
    }
  }

  /** The unsorted pairs list has one total per student id. */
  lemma SortedScoresConsistent(students: map<string, Student>, roster: seq<string>, subjects: seq<string>, sorted: seq<Scored>)
    requires multiset(sorted) == multiset(ScoresOf(students, roster, subjects))
    ensures SameIdSameTotal(sorted)
  {
    ScoresOfMembers(students, roster, subjects);
    forall k | 0 <= k < |sorted| ensures sorted[k].total == TotalOf(students, sorted[k].id, subjects) {
      assert sorted[k] in multiset(ScoresOf(students, roster, subjects));
    }
  }

  /** `compute_totals_and_ranks(data, class_id)`, defensive revision. */
  method ComputeTotalsAndRanks(doc: Doc, classId: string) returns (ranks: map<string, Standing>, order: seq<string>)
    ensures classId !in doc.classes.GetOr(map[]) ==> ranks == map[] && order == []
    ensures classId in doc.classes.GetOr(map[]) ==>
      ClassRanked(doc.students.GetOr(map[]), doc.classes.GetOr(map[])[classId], ranks, order)
  {
    var classes := doc.classes.GetOr(map[]);
    if classId !in classes {
      return map[], [];
    }
    var cls := classes[classId];
    var subjects := cls.subjects;
    var students := doc.students.GetOr(map[]);
    var totals: seq<Scored> := [];
    var i := 0;
    while i < |cls.students|
      invariant 0 <= i <= |cls.students|
      invariant totals == ScoresOf(students, cls.students[..i], subjects)
    {
      var sid := cls.students[i];
      var marks := MarksOf(students, sid);
      var total := 0;
      var j := 0;
      while j < |subjects|
        invariant 0 <= j <= |subjects|
        invariant total == SumMarks(marks, subjects[..j])
      {
        assert subjects[..j + 1][..j] == subjects[..j];
        total := total + MarkValue(Lookup(marks, subjects[j]));
        j := j + 1;
      }
      assert subjects[..j] == subjects;
      assert cls.students[..i + 1][..i] == cls.students[..i];
      totals := totals + [Scored(sid, total)];
      i := i + 1;
    }
    assert cls.students[..i] == cls.students;
    ranks, order := RankTotals(students, cls, totals);
  }

  /** The tail both revisions share: sort the `totals` list by (-total, id)
      and walk it handing out competition ranks. */
  method RankTotals(students: map<string, Student>, cls: ClassRec, totals: seq<Scored>)
    returns (ranks: map<string, Standing>, order: seq<string>)
    requires totals == ScoresOf(students, cls.students, cls.subjects)
    ensures ClassRanked(students, cls, ranks, order)
  {
    var sorted := SortByKey(totals);
    SortedScoresConsistent(students, cls.students, cls.subjects, sorted);
    ranks, order := AssignRanks(sorted);
    RankedPermutation(ranks, order, sorted, totals);
    RankedIsClassRanked(students, cls, ranks, order);
  }

  /** A total reads only the listed subjects: two mark maps that value every
      listed subject alike give the same total, whatever else they hold. */
  lemma {:induction false} SumMarksReadsListedSubjects(m1: map<string, Mark>, m2: map<string, Mark>, subjects: seq<string>)
    requires forall k :: 0 <= k < |subjects| ==> MarkValue(Lookup(m1, subjects[k])) == MarkValue(Lookup(m2, subjects[k]))
    ensures SumMarks(m1, subjects) == SumMarks(m2, subjects)
  {
    if subjects != [] {
      SumMarksReadsListedSubjects(m1, m2, subjects[..|subjects| - 1]);
    }
  }

  /** A student with no record, or no marks, totals 0. */
  lemma {:induction false} UnknownStudentTotalsZero(students: map<string, Student>, sid: string, subjects: seq<string>)
    requires sid !in students || students[sid].marks == map[]
    ensures TotalOf(students, sid, subjects) == 0
  {
    if subjects != [] {
      UnknownStudentTotalsZero(students, sid, subjects[..|subjects| - 1]);
    }
  }

  /** A stored string that int() rejects adds nothing: the total is what it
      would be with no mark for that subject at all. */
  lemma UnconvertibleMarkCountsZero(marks: map<string, Mark>, subject: string, text: string, subjects: seq<string>)
    requires ParseInt(text).None?
    ensures SumMarks(marks[subject := StrMark(text)], subjects) == SumMarks(marks - {subject}, subjects)
  {
    SumMarksReadsListedSubjects(marks[subject := StrMark(text)], marks - {subject}, subjects);
  }

  /** The leaderboard facts about one class's result: tied totals share a
      rank, a strictly higher total has a strictly smaller rank, every rank lies
      in 1..n for n roster entries, and rank 1 goes exactly to the top total. */
  lemma LeaderboardFacts(students: map<string, Student>, cls: ClassRec,
                         ranks: map<string, Standing>, order: seq<string>, a: string, b: string)
    requires ClassRanked(students, cls, ranks, order)
    requires a in ranks && b in ranks
    ensures ranks[a].total == ranks[b].total ==> ranks[a].rank == ranks[b].rank
    ensures ranks[a].total > ranks[b].total ==> ranks[a].rank < ranks[b].rank
    ensures 1 <= ranks[a].rank <= |cls.students|
    ensures ranks[a].rank == 1 <==> forall sid :: sid in ranks ==> ranks[sid].total <= ranks[a].total
  {
    var scores := ScoresOf(students, cls.students, cls.subjects);
    ScoresOfMembers(students, cls.students, cls.subjects);
    var k :| 0 <= k < |cls.students| && cls.students[k] == a;
    assert scores[k].total == ranks[a].total;
    RankMonotone(scores, k, ranks[b].total);
    RankRange(scores, k);
    if ranks[a].rank == 1 {
      forall sid | sid in ranks ensures ranks[sid].total <= ranks[a].total {
        var j :| 0 <= j < |cls.students| && cls.students[j] == sid;
        assert scores[j].total == ranks[sid].total;
      }
    }
    if forall sid :: sid in ranks ==> ranks[sid].total <= ranks[a].total {
      forall j | 0 <= j < |scores| ensures scores[j].total <= scores[k].total {
        assert cls.students[j] in ranks;
      }
    }
  }

  lemma StrictlyBeforeAsymmetric(x: Scored, y: Scored)
    ensures !(StrictlyBefore(x, y) && StrictlyBefore(y, x))
  {
    StrLessAsymmetric(x.id, y.id);
  }

  lemma {:induction false} OrderUnique(ranks: map<string, Standing>, o1: seq<string>, o2: seq<string>)
    requires forall x :: x in o1 ==> x in ranks
    requires forall x :: x in o1 <==> x in o2
    requires KeysOrdered(ranks, o1) && KeysOrdered(ranks, o2)
    ensures o1 == o2
    decreases |o1|
  {
    assert o2 != [] ==> o2[0] in o1;
    if o1 != [] {
      assert o1[0] in o2;
      var n :| 0 <= n < |o2| && o2[n] == o1[0];
      assert o2[0] in o1;
      var m :| 0 <= m < |o1| && o1[m] == o2[0];
      if n != 0 {
        if m == 0 {
          StrLessIrreflexive(o2[0]);
        } else {
          StrictlyBeforeAsymmetric(Scored(o1[0], ranks[o1[0]].total), Scored(o2[0], ranks[o2[0]].total));
        }
        assert false;
      }
      assert o1[0] == o2[0];
      forall x ensures x in o1[1..] <==> x in o2[1..] {
        if x in o1[1..] {
          var i :| 1 <= i < |o1| && o1[i] == x;
          StrLessIrreflexive(x);
          assert x != o1[0];
          assert x in o1 && x in o2;
          var j :| 0 <= j < |o2| && o2[j] == x;
          assert o2[1..][j - 1] == x;
        }
        if x in o2[1..] {
          var i :| 1 <= i < |o2| && o2[i] == x;
          StrLessIrreflexive(x);
          assert x != o2[0];
          assert x in o2 && x in o1;
          var j :| 0 <= j < |o1| && o1[j] == x;
          assert o1[1..][j - 1] == x;
        }
      }
      KeysOrderedTail(ranks, o1);
      KeysOrderedTail(ranks, o2);
      OrderUnique(ranks, o1[1..], o2[1..]);
      assert o1 == [o1[0]] + o1[1..] && o2 == [o2[0]] + o2[1..];
    }
  }

  lemma KeysOrderedTail(ranks: map<string, Standing>, o: seq<string>)
    requires o != [] && KeysOrdered(ranks, o)
    ensures KeysOrdered(ranks, o[1..])
  {
    forall m, n | 0 <= m < n < |o| - 1
      ensures o[1..][m] == o[m + 1] && o[1..][n] == o[n + 1]
    {
    }
  }

  /** The result is determined by the class: two results that both meet the
      contract are the same dictionary with the same key order. */
  lemma ClassRankedUnique(students: map<string, Student>, cls: ClassRec,
                          r1: map<string, Standing>, o1: seq<string>, r2: map<string, Standing>, o2: seq<string>)
    requires ClassRanked(students, cls, r1, o1) && ClassRanked(students, cls, r2, o2)
    ensures r1 == r2 && o1 == o2
  {
    assert r1.Keys == r2.Keys;
    OrderUnique(r1, o1, o2);
  }
}
