/** The part of `compute_totals_and_ranks` that both revisions share: sort
    the (student id, total) pairs by (-total, id), then walk them once,
    threading `prev_total` and `prev_rank`, to fill the result dictionary.

    The rank given to a total is its standard competition rank: one plus the
    number of entries with a strictly greater total (170, 170, 150 rank
    1, 1, 3), although the source's docstring calls it dense ranking. */
module RankEngine {
  import opened Wrappers
  import opened Text

  /** One `(sid, total)` pair of the `totals` list. */
  datatype Scored = Scored(id: string, total: int)

  /** One value of the result dictionary: `{"total": ..., "rank": ...}`. */
  datatype Standing = Standing(total: int, rank: int)

  /** The number of entries whose total is strictly greater than `t`. */
  function CountAbove(scores: seq<Scored>, t: int): (n: nat)
    ensures n <= |scores|
  {
    if scores == [] then 0 else (if scores[0].total > t then 1 else 0) + CountAbove(scores[1..], t)
  }

  /** Standard competition rank of a total among `scores`. */
  function RankOf(scores: seq<Scored>, t: int): int {
    1 + CountAbove(scores, t)
  }

  /** Dense rank, the scheme the docstring names: one plus the number of
      distinct totals strictly greater than `t`. */
  function DenseRankOf(scores: seq<Scored>, t: int): int {
    1 + |set e | e in scores && e.total > t :: e.total|
  }

  /** `a` may come before `b` under the sort key (-total, id). */
  predicate Before(a: Scored, b: Scored) {
    a.total > b.total || (a.total == b.total && StrLe(a.id, b.id))
  }

  predicate StrictlyBefore(a: Scored, b: Scored) {
    a.total > b.total || (a.total == b.total && StrLess(a.id, b.id))
  }

  predicate SortedByKey(s: seq<Scored>) {
    forall i, j :: 0 <= i < j < |s| ==> Before(s[i], s[j])
  }

  /** Entries for the same student carry the same total. */
  predicate SameIdSameTotal(s: seq<Scored>) {
    forall i, j :: 0 <= i < |s| && 0 <= j < |s| && s[i].id == s[j].id ==> s[i].total == s[j].total
  }

  lemma BeforeTotal(a: Scored, b: Scored)
    ensures Before(a, b) || Before(b, a)
  {
    StrLessTotal(a.id, b.id);
  }

  lemma BeforeTransitive(a: Scored, b: Scored, c: Scored)
    requires Before(a, b) && Before(b, c)
    ensures Before(a, c)
  {
    if a.total == b.total == c.total && a.id != b.id && b.id != c.id {
      StrLessTransitive(a.id, b.id, c.id);
    }
  }

  /** Inserts `x` into a sorted list in front of the first entry it may precede. */
  function InsertByKey(x: Scored, s: seq<Scored>): (r: seq<Scored>)
    requires SortedByKey(s)
    ensures |r| == |s| + 1 && (r[0] == x || (s != [] && r[0] == s[0]))
    ensures SortedByKey(r) && multiset(r) == multiset(s) + multiset{x}
  {
    if s == [] || Before(x, s[0]) then
      SortedCons(x, s);
      [x] + s
    else
      BeforeTotal(x, s[0]);
      var rest := InsertByKey(x, s[1..]);
      assert s == [s[0]] + s[1..];
      assert |s| > 1 ==> Before(s[0], s[1]);
      SortedCons(s[0], rest);
      [s[0]] + rest
  }

  /** Putting in front an entry that may precede the first keeps a list sorted. */
  lemma SortedCons(a: Scored, r: seq<Scored>)
    requires SortedByKey(r) && (r == [] || Before(a, r[0]))
    ensures SortedByKey([a] + r)
  {
    var t := [a] + r;
    forall i, j | 0 <= i < j < |t| ensures Before(t[i], t[j]) {
      if i == 0 && j > 1 {
        BeforeTransitive(a, r[0], r[j - 1]);
      }
    }
  }

  /** `totals.sort(key=lambda x: (-x[1], x[0]))`: the same pairs, ordered by
      descending total and then ascending id. */
  function SortByKey(s: seq<Scored>): (r: seq<Scored>)
    ensures SortedByKey(r) && multiset(r) == multiset(s)
  {
    if s == [] then []
    else
      assert s == [s[0]] + s[1..];
      InsertByKey(s[0], SortByKey(s[1..]))
  }

  /** The result dictionary (`ranks`, with `order` its key insertion order)
      for the pairs `scores`: exactly the listed students, each with its total
      and the competition rank of that total; the keys in (-total, id) order. */
  ghost predicate Ranked(ranks: map<string, Standing>, order: seq<string>, scores: seq<Scored>) {
    && (forall e :: e in scores ==> e.id in ranks && ranks[e.id] == Standing(e.total, RankOf(scores, e.total)))
    && (forall id :: id in ranks ==> exists e :: e in scores && e.id == id)
    && (forall id :: id in ranks <==> id in order)
    && KeysOrdered(ranks, order)
  }

  lemma {:induction false} CountAboveSplit(s: seq<Scored>, t: int, i: nat)
    requires i <= |s|
    requires forall j :: 0 <= j < i ==> s[j].total > t
    requires forall j :: i <= j < |s| ==> s[j].total <= t
    ensures CountAbove(s, t) == i
  {
    if s != [] {
      CountAboveSplit(s[1..], t, if i == 0 then 0 else i - 1);
    }
  }

  /** In a sorted list, an entry whose total differs from its predecessor's
      has exactly as many strictly greater totals before it as its position. */
  lemma FirstOfTotalRank(s: seq<Scored>, i: nat)
    requires SortedByKey(s) && i < |s|
    requires i == 0 || s[i - 1].total != s[i].total
    ensures CountAbove(s, s[i].total) == i
  {
    assert forall j :: 0 <= j < i ==> s[j].total > s[i].total by {
      forall j | 0 <= j < i ensures s[j].total > s[i].total {
        assert Before(s[j], s[i - 1]) || j == i - 1;
        assert Before(s[i - 1], s[i]);
      }
    }
    assert forall j :: i <= j < |s| ==> s[j].total <= s[i].total by {
      forall j | i <= j < |s| ensures s[j].total <= s[i].total {
        assert j == i || Before(s[i], s[j]);
      }
    }
    CountAboveSplit(s, s[i].total, i);
  }

  /** The first `i` sorted entries are in `ranks`, each with its total and the
      competition rank of that total. */
  ghost predicate RanksUpTo(sorted: seq<Scored>, i: nat, ranks: map<string, Standing>)
    requires i <= |sorted|
  {
    forall k :: 0 <= k < i ==>
      sorted[k].id in ranks && ranks[sorted[k].id] == Standing(sorted[k].total, RankOf(sorted, sorted[k].total))
  }

  /** `order` lists the keys of `ranks`, and `pos` says where in the first `i`
      sorted entries each key came from. */
  ghost predicate OrderTracks(sorted: seq<Scored>, i: nat, ranks: map<string, Standing>, order: seq<string>, pos: seq<nat>) {
    && (forall id :: id in ranks <==> id in order)
    && |pos| == |order|
    && (forall m :: 0 <= m < |order| ==> pos[m] < i && pos[m] < |sorted| && sorted[pos[m]].id == order[m])
  }

  ghost predicate KeysOrdered(ranks: map<string, Standing>, order: seq<string>) {
    forall m, n :: 0 <= m < n < |order| && order[m] in ranks && order[n] in ranks ==>
      StrictlyBefore(Scored(order[m], ranks[order[m]].total), Scored(order[n], ranks[order[n]].total))
  }

  /** One iteration of the rank loop keeps the dictionary and its key order right. */
  lemma RankStepRanks(sorted: seq<Scored>, i: nat, ranks: map<string, Standing>, ranks': map<string, Standing>)
    requires SameIdSameTotal(sorted) && i < |sorted| && RanksUpTo(sorted, i, ranks)
    requires ranks' == ranks[sorted[i].id := Standing(sorted[i].total, RankOf(sorted, sorted[i].total))]
    ensures RanksUpTo(sorted, i + 1, ranks')
  {
    var e := sorted[i];
    forall k | 0 <= k < i + 1
      ensures sorted[k].id in ranks' && ranks'[sorted[k].id] == Standing(sorted[k].total, RankOf(sorted, sorted[k].total))
    {
      if sorted[k].id == e.id {
        assert sorted[k].total == e.total;
      }
    }
  }

  lemma RankStepOrder(sorted: seq<Scored>, i: nat, ranks: map<string, Standing>, order: seq<string>, pos: seq<nat>,
                      ranks': map<string, Standing>, order': seq<string>, pos': seq<nat>)
    requires i < |sorted| && OrderTracks(sorted, i, ranks, order, pos)
    requires ranks'.Keys == ranks.Keys + {sorted[i].id}
    requires order' == if sorted[i].id in ranks then order else order + [sorted[i].id]
    requires pos' == if sorted[i].id in ranks then pos else pos + [i]
    ensures OrderTracks(sorted, i + 1, ranks', order', pos')
  {
  }

  /** An id already in the dictionary: the order is unchanged and so are the totals it ranks by. */
  lemma RankStepKeysSeen(sorted: seq<Scored>, i: nat, ranks: map<string, Standing>, order: seq<string>, pos: seq<nat>,
                         ranks': map<string, Standing>)
    requires SameIdSameTotal(sorted) && i < |sorted| && sorted[i].id in ranks
    requires RanksUpTo(sorted, i, ranks) && OrderTracks(sorted, i, ranks, order, pos) && KeysOrdered(ranks, order)
    requires ranks' == ranks[sorted[i].id := Standing(sorted[i].total, RankOf(sorted, sorted[i].total))]
    ensures KeysOrdered(ranks', order)
  {
    forall m | 0 <= m < |order| ensures ranks'[order[m]].total == ranks[order[m]].total {
      assert ranks[order[m]].total == sorted[pos[m]].total;
    }
  }

  /** A new id: it goes to the end of the order, after every key already there. */
  lemma RankStepKeysNew(sorted: seq<Scored>, i: nat, ranks: map<string, Standing>, order: seq<string>, pos: seq<nat>,
                        ranks': map<string, Standing>)
    requires SortedByKey(sorted) && i < |sorted| && sorted[i].id !in ranks
    requires RanksUpTo(sorted, i, ranks) && OrderTracks(sorted, i, ranks, order, pos) && KeysOrdered(ranks, order)
    requires ranks' == ranks[sorted[i].id := Standing(sorted[i].total, RankOf(sorted, sorted[i].total))]
    ensures KeysOrdered(ranks', order + [sorted[i].id])
  {
    var e := sorted[i];
    var o := order + [e.id];
    forall m | 0 <= m < |order|
      ensures ranks'[o[m]].total == ranks[order[m]].total == sorted[pos[m]].total
      ensures StrictlyBefore(Scored(o[m], ranks'[o[m]].total), Scored(o[|order|], ranks'[o[|order|]].total))
    {
      assert Before(sorted[pos[m]], e);
      assert sorted[pos[m]].id != e.id;
    }
  }

  /** The dictionary after the rank loop has handled the first `i` sorted entries. */
  ghost function RanksPrefix(sorted: seq<Scored>, i: nat): map<string, Standing>
    requires i <= |sorted|
  {
    if i == 0 then map[]
    else RanksPrefix(sorted, i - 1)[sorted[i - 1].id := Standing(sorted[i - 1].total, RankOf(sorted, sorted[i - 1].total))]
  }

  /** Its key insertion order. */
  ghost function OrderPrefix(sorted: seq<Scored>, i: nat): seq<string>
    requires i <= |sorted|
  {
    if i == 0 then []
    else if sorted[i - 1].id in RanksPrefix(sorted, i - 1) then OrderPrefix(sorted, i - 1)
    else OrderPrefix(sorted, i - 1) + [sorted[i - 1].id]
  }

  /** Where each key of the order first occurred in the sorted list. */
  ghost function PosPrefix(sorted: seq<Scored>, i: nat): seq<nat>
    requires i <= |sorted|
  {
    if i == 0 then []
    else if sorted[i - 1].id in RanksPrefix(sorted, i - 1) then PosPrefix(sorted, i - 1)
    else PosPrefix(sorted, i - 1) + [i - 1]
  }

  lemma {:induction false} PrefixInvariant(sorted: seq<Scored>, i: nat)
    requires SortedByKey(sorted) && SameIdSameTotal(sorted) && i <= |sorted|
    ensures RanksUpTo(sorted, i, RanksPrefix(sorted, i))
    ensures OrderTracks(sorted, i, RanksPrefix(sorted, i), OrderPrefix(sorted, i), PosPrefix(sorted, i))
    ensures KeysOrdered(RanksPrefix(sorted, i), OrderPrefix(sorted, i))
  {
    if i > 0 {
      var j := i - 1;
      var ranks, order, pos := RanksPrefix(sorted, j), OrderPrefix(sorted, j), PosPrefix(sorted, j);
      var ranks', order', pos' := RanksPrefix(sorted, i), OrderPrefix(sorted, i), PosPrefix(sorted, i);
      PrefixInvariant(sorted, j);
      RankStepRanks(sorted, j, ranks, ranks');
      RankStepOrder(sorted, j, ranks, order, pos, ranks', order', pos');
      if sorted[j].id in ranks {
        RankStepKeysSeen(sorted, j, ranks, order, pos, ranks');
      } else {
        RankStepKeysNew(sorted, j, ranks, order, pos, ranks');
      }
    }
  }

  /** The rank loop of both revisions. `order` records the order in which keys
      first enter the dictionary. */
  method AssignRanks(sorted: seq<Scored>) returns (ranks: map<string, Standing>, order: seq<string>)
    requires SortedByKey(sorted) && SameIdSameTotal(sorted)
    ensures Ranked(ranks, order, sorted)
  {
    ranks, order := map[], [];
    var prevTotal: Option<int> := None;
    var prevRank := 0;
    var i := 0;
    while i < |sorted|
      invariant 0 <= i <= |sorted|
      invariant i == 0 ==> prevTotal == None
      invariant i > 0 ==> prevTotal == Some(sorted[i - 1].total) && prevRank == RankOf(sorted, sorted[i - 1].total)
      invariant ranks == RanksPrefix(sorted, i) && order == OrderPrefix(sorted, i)
    {
      var idx := i + 1;
      var entry := sorted[i];
      var rank: int;
      if prevTotal != Some(entry.total) {
        FirstOfTotalRank(sorted, i);
        rank := idx;
        prevRank := rank;
        prevTotal := Some(entry.total);
      } else {
        rank := prevRank;
      }
      if entry.id !in ranks {
        order := order + [entry.id];
      }
      ranks := ranks[entry.id := Standing(entry.total, rank)];
      i := i + 1;
    }
    PrefixInvariant(sorted, |sorted|);
    RankedWhenDone(sorted, ranks, order, PosPrefix(sorted, |sorted|));
  }

  lemma RankedWhenDone(sorted: seq<Scored>, ranks: map<string, Standing>, order: seq<string>, pos: seq<nat>)
    requires RanksUpTo(sorted, |sorted|, ranks) && OrderTracks(sorted, |sorted|, ranks, order, pos)
    requires KeysOrdered(ranks, order)
    ensures Ranked(ranks, order, sorted)
  {
    forall e | e in sorted ensures e.id in ranks && ranks[e.id] == Standing(e.total, RankOf(sorted, e.total)) {
      var k :| 0 <= k < |sorted| && sorted[k] == e;
    }
    forall id | id in ranks ensures exists e :: e in sorted && e.id == id {
      var m :| 0 <= m < |order| && order[m] == id;
      assert sorted[pos[m]] in sorted;
    }
  }

  lemma {:induction false} CountAboveConcat(u: seq<Scored>, v: seq<Scored>, t: int)
    ensures CountAbove(u + v, t) == CountAbove(u, t) + CountAbove(v, t)
  {
    if u == [] {
      assert u + v == v;
    } else {
      assert (u + v)[0] == u[0];
      assert (u + v)[1..] == u[1..] + v;
      CountAboveConcat(u[1..], v, t);
    }
  }

  /** The count of strictly greater totals, hence every rank, depends only on
      the multiset of pairs: sorting, and the id tie-break in particular,
      changes the order of the entries and never a rank. */
  lemma {:induction false} CountAbovePermutation(a: seq<Scored>, b: seq<Scored>, t: int)
    requires multiset(a) == multiset(b)
    ensures CountAbove(a, t) == CountAbove(b, t)
    decreases |a|
  {
    if a == [] {
      assert |multiset(b)| == 0;
    } else {
      var x := a[0];
      assert x in multiset(b);
      var k :| 0 <= k < |b| && b[k] == x;
      var b' := b[..k] + b[k + 1..];
      assert b == b[..k] + [x] + b[k + 1..];
      assert a == [x] + a[1..];
      assert multiset(b) == multiset(b[..k]) + multiset{x} + multiset(b[k + 1..]);
      assert multiset(a) == multiset{x} + multiset(a[1..]);
      assert multiset(b') == multiset(b[..k]) + multiset(b[k + 1..]);
      assert multiset(a[1..]) == multiset(a) - multiset{x};
      assert multiset(b') == multiset(b) - multiset{x};
      CountAbovePermutation(a[1..], b', t);
      CountAboveConcat(b[..k] + [x], b[k + 1..], t);
      CountAboveConcat(b[..k], [x], t);
      CountAboveConcat(b[..k], b[k + 1..], t);
    }
  }

  lemma RankedPermutation(ranks: map<string, Standing>, order: seq<string>, a: seq<Scored>, b: seq<Scored>)
    requires multiset(a) == multiset(b) && Ranked(ranks, order, a)
    ensures Ranked(ranks, order, b)
  {
    forall e | e in b ensures e in a && RankOf(a, e.total) == RankOf(b, e.total) {
      assert e in multiset(a);
      CountAbovePermutation(a, b, e.total);
    }
    forall id | id in ranks ensures exists e :: e in b && e.id == id {
      var e :| e in a && e.id == id;
      assert e in multiset(b);
    }
  }

  lemma {:induction false} CountAboveMonotone(s: seq<Scored>, t1: int, t2: int)
    requires t1 >= t2
    ensures CountAbove(s, t1) <= CountAbove(s, t2)
  {
    if s != [] { CountAboveMonotone(s[1..], t1, t2); }
  }

  lemma {:induction false} CountAboveStrict(s: seq<Scored>, i: nat, t2: int)
    requires i < |s| && s[i].total > t2
    ensures CountAbove(s, s[i].total) < CountAbove(s, t2)
  {
    if i == 0 {
      CountAboveMonotone(s[1..], s[0].total, t2);
    } else {
      CountAboveStrict(s[1..], i - 1, t2);
    }
  }

  lemma {:induction false} CountAboveOfMember(s: seq<Scored>, i: nat)
    requires i < |s|
    ensures CountAbove(s, s[i].total) < |s|
  {
    if i > 0 { CountAboveOfMember(s[1..], i - 1); }
  }

  lemma {:induction false} CountAboveZero(s: seq<Scored>, t: int)
    ensures CountAbove(s, t) == 0 <==> forall j :: 0 <= j < |s| ==> s[j].total <= t
  {
    if s != [] {
      CountAboveZero(s[1..], t);
      assert forall j :: 1 <= j < |s| ==> s[j] == s[1..][j - 1];
    }
  }

  /** Ties share a rank; a strictly higher total gets a strictly smaller rank;
      a lower or equal total never gets a smaller rank. */
  lemma RankMonotone(scores: seq<Scored>, i: nat, t: int)
    requires i < |scores|
    ensures scores[i].total == t ==> RankOf(scores, scores[i].total) == RankOf(scores, t)
    ensures scores[i].total > t ==> RankOf(scores, scores[i].total) < RankOf(scores, t)
    ensures scores[i].total < t ==> RankOf(scores, scores[i].total) >= RankOf(scores, t)
  {
    if scores[i].total > t { CountAboveStrict(scores, i, t); }
    if scores[i].total < t { CountAboveMonotone(scores, t, scores[i].total); }
  }

  /** Every rank of a listed total lies in 1..n, and it is 1 exactly when no
      listed total is greater. */
  lemma RankRange(scores: seq<Scored>, i: nat)
    requires i < |scores|
    ensures 1 <= RankOf(scores, scores[i].total) <= |scores|
    ensures RankOf(scores, scores[i].total) == 1 <==> forall j :: 0 <= j < |scores| ==> scores[j].total <= scores[i].total
  {
    CountAboveOfMember(scores, i);
    CountAboveZero(scores, scores[i].total);
  }

  /** On totals 170, 170, 150 the third student is ranked 3 (competition
      ranking); dense ranking would give 2. On 200, 170, 170 both schemes
      give 1, 2, 2. */
  lemma CompetitionRankingIsNotDense()
    ensures var s := [Scored("S1", 170), Scored("S2", 170), Scored("S3", 150)];
      RankOf(s, 170) == 1 && RankOf(s, 150) == 3 && DenseRankOf(s, 150) == 2
    ensures var s := [Scored("S3", 200), Scored("S1", 170), Scored("S2", 170)];
      RankOf(s, 200) == 1 && RankOf(s, 170) == 2 && DenseRankOf(s, 170) == 2
  {
    var s := [Scored("S1", 170), Scored("S2", 170), Scored("S3", 150)];
    assert s[1..][1..][1..] == [];
    assert (set e | e in s && e.total > 150 :: e.total) == {170};
    var s' := [Scored("S3", 200), Scored("S1", 170), Scored("S2", 170)];
    assert s'[1..][1..][1..] == [];
    assert (set e | e in s' && e.total > 170 :: e.total) == {200};
  }
}
