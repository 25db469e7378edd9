/**
  The ranking core of `recommend`: pair every column of one similarity row with
  its score, sort the pairs by score in descending order with Python's stable
  `sorted(..., reverse=True)`, drop the first pair and keep the next `n`.
  Scores are only ever compared, so they are modelled as `real`.
*/
module Ranking {

  type Score = real

  /** One `(column index, score)` pair, as produced by `enumerate(row)`. */
  datatype Scored = Scored(index: nat, score: Score)

  /** `list(enumerate(row))`. */
  function Enumerate(row: seq<Score>): (r: seq<Scored>)
    ensures |r| == |row|
    ensures forall i :: 0 <= i < |r| ==> r[i] == Scored(i, row[i])
  {
    seq(|row|, i requires 0 <= i < |row| => Scored(i, row[i]))
  }

  /** Non-increasing scores: the order `sorted(..., key=score, reverse=True)` promises. */
  ghost predicate Descending(s: seq<Scored>) {
    forall i, j :: 0 <= i < j < |s| ==> s[i].score >= s[j].score
  }

  /**
    The rank order of two pairs: the higher score first and, between equal
    scores, the smaller column index first.
  */
  predicate Before(a: Scored, b: Scored) {
    a.score > b.score || (a.score == b.score && a.index < b.index)
  }

  /** Every earlier pair comes strictly `Before` every later one. */
  ghost predicate StrictlyRanked(s: seq<Scored>) {
    forall i, j :: 0 <= i < j < |s| ==> Before(s[i], s[j])
  }

  /** The pairs appear in strictly increasing index order, as `enumerate` yields them. */
  ghost predicate IncreasingIndices(s: seq<Scored>) {
    forall i, j :: 0 <= i < j < |s| ==> s[i].index < s[j].index
  }

  /** Every score in `s` is at most `bound`. */
  ghost predicate AllAtMost(s: seq<Scored>, bound: Score) {
    forall e :: e in s ==> e.score <= bound
  }

  /**
    Inserts `x` after every pair whose score is at least `x.score`, so that a
    later pair never overtakes an earlier pair of equal score.
  */
  function Insert(x: Scored, s: seq<Scored>): (r: seq<Scored>)
    ensures |r| == |s| + 1
    ensures multiset(r) == multiset(s) + multiset{x}
  {
    if |s| == 0 then [x]
    else if s[0].score >= x.score then
      assert s == [s[0]] + s[1..];
      [s[0]] + Insert(x, s[1..])
    else
      [x] + s
  }

  /** An insertion keeps every score under a bound that `x` also respects. */
  lemma InsertAtMost(x: Scored, s: seq<Scored>, bound: Score)
    requires AllAtMost(s, bound) && x.score <= bound
    ensures AllAtMost(Insert(x, s), bound)
  {
    var r := Insert(x, s);
    forall e | e in r ensures e.score <= bound {
      assert e in multiset(r);
    }
  }

  /** Inserting into a descending sequence leaves it descending. */
  lemma {:induction false} InsertDescending(x: Scored, s: seq<Scored>)
    requires Descending(s)
    ensures Descending(Insert(x, s))
    decreases |s|
  {
    if |s| > 0 && s[0].score >= x.score {
      var tail := s[1..];
      InsertDescending(x, tail);
      assert AllAtMost(tail, s[0].score) by {
        forall e | e in tail ensures e.score <= s[0].score {
          var k :| 0 <= k < |tail| && tail[k] == e;
          assert s[k + 1] == e;
        }
      }
      InsertAtMost(x, tail, s[0].score);
      var t := Insert(x, tail);
      assert Insert(x, s) == [s[0]] + t;
      forall i, j | 0 <= i < j < |t| + 1 ensures ([s[0]] + t)[i].score >= ([s[0]] + t)[j].score {
        if i == 0 {
          assert ([s[0]] + t)[j] == t[j - 1];
          assert t[j - 1] in t;
        }
      }
    }
  }

  /**
    Python's stable `sorted(s, key=score, reverse=True)`, written as an
    insertion sort that inserts the pairs in their original order.
  */
  function SortDesc(s: seq<Scored>): (r: seq<Scored>)
    ensures |r| == |s|
    ensures multiset(r) == multiset(s)
    ensures Descending(r)
    decreases |s|
  {
    if |s| == 0 then []
    else
      var init := s[..|s| - 1];
      assert s == init + [s[|s| - 1]];
      var sortedInit := SortDesc(init);
      InsertDescending(s[|s| - 1], sortedInit);
      Insert(s[|s| - 1], sortedInit)
  }

  /** A pair that ranks before every pair of a strictly ranked sequence can lead it. */
  lemma ConsRanked(h: Scored, t: seq<Scored>)
    requires StrictlyRanked(t)
    requires forall j :: 0 <= j < |t| ==> Before(h, t[j])
    ensures StrictlyRanked([h] + t)
  {
    forall i, j | 0 <= i < j < |t| + 1 ensures Before(([h] + t)[i], ([h] + t)[j]) {
      assert ([h] + t)[j] == t[j - 1];
      if i > 0 {
        assert ([h] + t)[i] == t[i - 1];
      }
    }
  }

  /**
    Inserting a pair whose index exceeds every index already present keeps a
    strictly ranked sequence strictly ranked: the stability of the sort.
  */
  lemma {:induction false} InsertRanked(x: Scored, s: seq<Scored>)
    requires StrictlyRanked(s)
    requires forall e :: e in s ==> e.index < x.index
    ensures StrictlyRanked(Insert(x, s))
    decreases |s|
  {
    if |s| > 0 {
      if s[0].score >= x.score {
        var tail := s[1..];
        InsertRanked(x, tail);
        var t := Insert(x, tail);
        assert Insert(x, s) == [s[0]] + t;
        forall j | 0 <= j < |t| ensures Before(s[0], t[j]) {
          assert t[j] in multiset(t);
          if t[j] != x {
            var k :| 0 <= k < |tail| && tail[k] == t[j];
            assert s[k + 1] == t[j];
          }
        }
        ConsRanked(s[0], t);
      } else {
        forall j | 0 <= j < |s| ensures Before(x, s[j]) {
          if j > 0 {
            assert Before(s[0], s[j]);
          }
        }
        ConsRanked(x, s);
      }
    }
  }

  /** Sorting pairs listed in increasing index order yields the rank order. */
  lemma {:induction false} SortRanked(s: seq<Scored>)
    requires IncreasingIndices(s)
    ensures StrictlyRanked(SortDesc(s))
    decreases |s|
  {
    if |s| > 0 {
      var init := s[..|s| - 1];
      var x := s[|s| - 1];
      SortRanked(init);
      var sortedInit := SortDesc(init);
      forall e | e in sortedInit ensures e.index < x.index {
        assert e in multiset(init);
        var k :| 0 <= k < |init| && init[k] == e;
      }
      InsertRanked(x, sortedInit);
    }
  }

  /** The head of a strictly ranked sequence ranks before every other pair in it. */
  lemma FirstRanksFirst(s: seq<Scored>, y: Scored)
    requires StrictlyRanked(s)
    requires y in s
    ensures s[0] == y || Before(s[0], y)
  {
    var k :| 0 <= k < |s| && s[k] == y;
  }

  /** Dropping the head keeps a sequence strictly ranked and removes one copy of the head. */
  lemma RankedTail(s: seq<Scored>)
    requires StrictlyRanked(s) && |s| > 0
    ensures StrictlyRanked(s[1..])
    ensures multiset(s[1..]) == multiset(s) - multiset{s[0]}
  {
    assert s == [s[0]] + s[1..];
  }

  /** Two strictly ranked sequences holding the same pairs start with the same pair. */
  lemma RankedHeads(a: seq<Scored>, b: seq<Scored>)
    requires StrictlyRanked(a) && StrictlyRanked(b)
    requires multiset(a) == multiset(b) && |a| > 0 && |b| > 0
    ensures a[0] == b[0]
  {
    assert b[0] in multiset(a) && a[0] in multiset(b);
    FirstRanksFirst(a, b[0]);
    FirstRanksFirst(b, a[0]);
  }

  /** Two strictly ranked sequences holding the same pairs are equal. */
  lemma {:induction false} RankedUnique(a: seq<Scored>, b: seq<Scored>)
    requires StrictlyRanked(a) && StrictlyRanked(b)
    requires multiset(a) == multiset(b)
    ensures a == b
    decreases |a|
  {
    assert |a| == |multiset(a)| == |multiset(b)| == |b|;
    if |a| > 0 {
      RankedHeads(a, b);
      RankedTail(a);
      RankedTail(b);
      RankedUnique(a[1..], b[1..]);
      assert a == [a[0]] + a[1..] && b == [b[0]] + b[1..];
    }
  }

  /** The sorted pairs of one similarity row: `sorted(enumerate(row), ..., reverse=True)`. */
  function RankRow(row: seq<Score>): seq<Scored> {
    SortDesc(Enumerate(row))
  }

  /** A row's pairs come out in rank order: descending score, ties by ascending column. */
  lemma RankRowRanked(row: seq<Score>)
    ensures StrictlyRanked(RankRow(row))
  {
    SortRanked(Enumerate(row));
  }

  /** The sorted pairs are exactly the row's `(column, score)` pairs. */
  lemma RankRowEntries(row: seq<Score>)
    ensures |RankRow(row)| == |row|
    ensures forall e :: e in RankRow(row) ==> e.index < |row| && e.score == row[e.index]
    ensures forall i :: 0 <= i < |row| ==> Scored(i, row[i]) in RankRow(row)
  {
    var r := RankRow(row);
    var en := Enumerate(row);
    forall e | e in r ensures e.index < |row| && e.score == row[e.index] {
      assert e in multiset(en);
      var k :| 0 <= k < |en| && en[k] == e;
    }
    forall i | 0 <= i < |row| ensures Scored(i, row[i]) in r {
      assert en[i] in multiset(r);
    }
  }

  /**
    Independent characterisation of the sort: the ranking of a row is the one
    and only strictly ranked arrangement of its `(column, score)` pairs.
  */
  lemma RankRowCharacterised(row: seq<Score>, t: seq<Scored>)
    ensures t == RankRow(row) <==> multiset(t) == multiset(Enumerate(row)) && StrictlyRanked(t)
  {
    RankRowRanked(row);
    if multiset(t) == multiset(Enumerate(row)) && StrictlyRanked(t) {
      RankedUnique(t, RankRow(row));
    }
  }

  /** No column index appears twice in the ranking of a row. */
  lemma RankedIndicesDistinct(row: seq<Score>)
    ensures forall p, q :: 0 <= p < q < |RankRow(row)| ==> RankRow(row)[p].index != RankRow(row)[q].index
  {
    var r := RankRow(row);
    RankRowRanked(row);
    RankRowEntries(row);
    forall p, q | 0 <= p < q < |r| ensures r[p].index != r[q].index {
      assert r[p] in r && r[q] in r;
      assert Before(r[p], r[q]);
    }
  }

  /** Python's normalisation of one slice bound against a length. */
  function SliceBound(i: int, len: nat): (b: nat)
    ensures b <= len
  {
    if i < 0 then (if i + len < 0 then 0 else i + len)
    else if i > len then len
    else i
  }

  /** Python's `s[start:stop]` with unit step, negative bounds included. */
  function PySlice<T>(s: seq<T>, start: int, stop: int): (r: seq<T>)
    ensures 0 <= start && 0 <= stop ==> |r| == (if start < stop && start < |s| then Min(stop, |s|) - start else 0)
    ensures 0 <= start && stop < 0 ==> |r| == (if start < stop + |s| then stop + |s| - start else 0)
    ensures 0 <= start ==> forall k :: 0 <= k < |r| ==> start + k < |s| && r[k] == s[start + k]
  {
    var lo := SliceBound(start, |s|);
    var hi := SliceBound(stop, |s|);
    if lo < hi then s[lo..hi] else []
  }

  function Min(a: int, b: int): int {
    if a <= b then a else b
  }

  /** The column of every pair, in order. */
  function Indices(s: seq<Scored>): (r: seq<nat>)
    ensures |r| == |s|
    ensures forall k :: 0 <= k < |r| ==> r[k] == s[k].index
  {
    seq(|s|, k requires 0 <= k < |s| => s[k].index)
  }

  /** `ranked[1:n + 1]` projected to the columns. */
  function KeepRanks(ranked: seq<Scored>, n: int): seq<nat> {
    Indices(PySlice(ranked, 1, n + 1))
  }

  /** The column indices `recommend` keeps: `sorted(...)[1:n + 1]` projected to their index. */
  function TopN(row: seq<Score>, n: int): seq<nat> {
    KeepRanks(RankRow(row), n)
  }

  /**
    `r` is a strict ranking of the pairs of `row`: one pair per column, each
    column's pair carrying that column's score.
  */
  ghost predicate RanksRow(r: seq<Scored>, row: seq<Score>) {
    && |r| == |row|
    && StrictlyRanked(r)
    && (forall p :: 0 <= p < |r| ==> r[p].index < |row| && r[p].score == row[r[p].index])
    && forall j :: 0 <= j < |row| ==> Scored(j, row[j]) in r
  }

  /** The sorted row is such a ranking. */
  lemma RankRowRanksRow(row: seq<Score>)
    ensures RanksRow(RankRow(row), row)
  {
    RankRowRanked(row);
    RankRowEntries(row);
    forall p | 0 <= p < |RankRow(row)| ensures RankRow(row)[p].index < |row| && RankRow(row)[p].score == row[RankRow(row)[p].index] {
      assert RankRow(row)[p] in RankRow(row);
    }
  }

  /** What `[1:n + 1]` keeps of any strict ranking of a row. */
  lemma KeepRanksShape(r: seq<Scored>, row: seq<Score>, n: int)
    requires RanksRow(r, row)
    ensures n >= 0 ==> |KeepRanks(r, n)| == (if |row| == 0 then 0 else Min(n, |row| - 1))
    ensures n < 0 ==> |KeepRanks(r, n)| == (if n < -1 && n + |row| > 0 then n + |row| else 0)
    ensures forall k :: 0 <= k < |KeepRanks(r, n)| ==> k + 1 < |r| && KeepRanks(r, n)[k] == r[k + 1].index
    ensures forall m :: 1 <= m <= |KeepRanks(r, n)| ==> r[m].index in KeepRanks(r, n)
    ensures forall k, l :: 0 <= k < l < |KeepRanks(r, n)| ==>
      && KeepRanks(r, n)[k] < |row| && KeepRanks(r, n)[l] < |row|
      && Before(Scored(KeepRanks(r, n)[k], row[KeepRanks(r, n)[k]]), Scored(KeepRanks(r, n)[l], row[KeepRanks(r, n)[l]]))
  {
    var top := KeepRanks(r, n);
    forall m | 1 <= m <= |top| ensures r[m].index in top {
      assert top[m - 1] == r[m].index;
    }
    forall k, l | 0 <= k < l < |top|
      ensures top[k] < |row| && top[l] < |row| && Before(Scored(top[k], row[top[k]]), Scored(top[l], row[top[l]]))
    {
      assert Scored(top[k], row[top[k]]) == r[k + 1];
      assert Scored(top[l], row[top[l]]) == r[l + 1];
    }
  }

  /** `TopN` keeps the pairs at ranks `1, 2, ...` of the sorted row. */
  lemma TopNFromRanking(row: seq<Score>, n: int)
    ensures forall k :: 0 <= k < |TopN(row, n)| ==>
      k + 1 < |RankRow(row)| && TopN(row, n)[k] == RankRow(row)[k + 1].index
    ensures forall m :: 1 <= m <= |TopN(row, n)| ==> RankRow(row)[m].index in TopN(row, n)
  {
    var top := TopN(row, n);
    forall m | 1 <= m <= |top| ensures RankRow(row)[m].index in top {
      assert top[m - 1] == RankRow(row)[m].index;
    }
  }

  /**
    The shape of the kept columns: for `n >= 0` exactly `min(n, |row| - 1)` of
    them, all in range and distinct, in non-increasing score order, with equal
    scores in ascending column order.
  */
  lemma TopNShape(row: seq<Score>, n: int)
    ensures n >= 0 ==> |TopN(row, n)| == (if |row| == 0 then 0 else Min(n, |row| - 1))
    ensures n < 0 ==> |TopN(row, n)| == (if n < -1 && n + |row| > 0 then n + |row| else 0)
    ensures forall k :: 0 <= k < |TopN(row, n)| ==> TopN(row, n)[k] < |row|
    ensures forall k, l :: 0 <= k < l < |TopN(row, n)| ==> TopN(row, n)[k] != TopN(row, n)[l]
    ensures forall k, l :: 0 <= k < l < |TopN(row, n)| ==> row[TopN(row, n)[k]] >= row[TopN(row, n)[l]]
    ensures forall k, l :: 0 <= k < l < |TopN(row, n)| && row[TopN(row, n)[k]] == row[TopN(row, n)[l]] ==>
      TopN(row, n)[k] < TopN(row, n)[l]
  {
    RankRowRanksRow(row);
    KeepRanksShape(RankRow(row), row, n);
  }

  /** Column `t` ranks before every other column of `row`. */
  ghost predicate IsBest(row: seq<Score>, t: nat) {
    t < |row| && forall j :: 0 <= j < |row| && j != t ==> Before(Scored(t, row[t]), Scored(j, row[j]))
  }

  /** In any strict ranking of a row, the best-ranked column comes first. */
  lemma RankedLeader(r: seq<Scored>, row: seq<Score>, t: nat)
    requires RanksRow(r, row) && IsBest(row, t)
    ensures |r| > 0 && r[0].index == t
  {
    var p :| 0 <= p < |r| && r[p] == Scored(t, row[t]);
    if p != 0 {
      assert Before(r[0], r[p]);
    }
  }

  /** The best-ranked column leads the sorted row. */
  lemma BestLeads(row: seq<Score>, t: nat)
    requires IsBest(row, t)
    ensures |RankRow(row)| > 0 && RankRow(row)[0].index == t
  {
    RankRowRanksRow(row);
    RankedLeader(RankRow(row), row, t);
  }

  /**
    What `[1:n + 1]` keeps of a strict ranking whose leader is the best
    column: not the leader, and nothing that ranks after a column left out.
  */
  lemma KeepSelection(r: seq<Scored>, row: seq<Score>, n: int, t: nat)
    requires RanksRow(r, row) && IsBest(row, t)
    ensures t !in KeepRanks(r, n)
    ensures forall j, k :: 0 <= j < |row| && j != t && j !in KeepRanks(r, n) && 0 <= k < |KeepRanks(r, n)| ==>
      KeepRanks(r, n)[k] < |row| && Before(Scored(KeepRanks(r, n)[k], row[KeepRanks(r, n)[k]]), Scored(j, row[j]))
  {
    var top := KeepRanks(r, n);
    RankedLeader(r, row, t);
    KeepRanksShape(r, row, n);
    forall k | 0 <= k < |top| ensures top[k] != t {
      assert Before(r[0], r[k + 1]);
    }
    forall j, k | 0 <= j < |row| && j != t && j !in top && 0 <= k < |top|
      ensures top[k] < |row| && Before(Scored(top[k], row[top[k]]), Scored(j, row[j]))
    {
      LeftOutAfter(r, row, n, t, j, k);
    }
  }

  /** A column neither leading nor kept ranks after the kept column at position `k`. */
  lemma LeftOutAfter(r: seq<Scored>, row: seq<Score>, n: int, t: nat, j: nat, k: nat)
    requires RanksRow(r, row) && |r| > 0 && r[0].index == t
    requires j < |row| && j != t && j !in KeepRanks(r, n) && k < |KeepRanks(r, n)|
    ensures KeepRanks(r, n)[k] < |row| && Before(Scored(KeepRanks(r, n)[k], row[KeepRanks(r, n)[k]]), Scored(j, row[j]))
  {
    var top := KeepRanks(r, n);
    KeepRanksShape(r, row, n);
    var q :| 0 <= q < |r| && r[q] == Scored(j, row[j]);
    assert q != 0;
    assert q > |top|;
    assert r[k + 1] == Scored(top[k], row[top[k]]);
    assert Before(r[k + 1], r[q]);
  }

  /**
    What `[1:n + 1]` keeps, described without the sort: the best column is
    dropped, and every other column left out ranks after every column kept.
  */
  lemma TopNSelection(row: seq<Score>, n: int, t: nat)
    requires IsBest(row, t)
    ensures t !in TopN(row, n)
    ensures forall j, k :: 0 <= j < |row| && j != t && j !in TopN(row, n) && 0 <= k < |TopN(row, n)| ==>
      TopN(row, n)[k] < |row| && Before(Scored(TopN(row, n)[k], row[TopN(row, n)[k]]), Scored(j, row[j]))
  {
    RankRowRanksRow(row);
    KeepSelection(RankRow(row), row, n, t);
  }

  /**
    When the queried row's self-score is strictly above every other score, the
    queried column never appears among the recommendations.
  */
  lemma SelfExcluded(row: seq<Score>, idx: nat, n: int)
    requires idx < |row|
    requires forall j :: 0 <= j < |row| && j != idx ==> row[j] < row[idx]
    ensures idx !in TopN(row, n)
  {
    TopNSelection(row, n, idx);
  }

  /**
    Without a strict maximum the self-exclusion fails: when an earlier column
    ties the self-score, that column is dropped and the queried column is kept.
  */
  lemma SelfTieKeepsSelf()
    ensures TopN([1.0, 1.0], 1) == [1]
  {
    var row := [1.0, 1.0];
    var t := [Scored(0, 1.0), Scored(1, 1.0)];
    assert Enumerate(row) == t;
    RankRowCharacterised(row, t);
    assert RankRow(row) == t;
  }

  /** Worked example: the row `[1, 0.9, 0.2]` is already in rank order. */
  lemma ExampleRanked(row: seq<Score>)
    requires row == [1.0, 0.9, 0.2]
    ensures RankRow(row) == [Scored(0, 1.0), Scored(1, 0.9), Scored(2, 0.2)]
  {
    var ranked := [Scored(0, 1.0), Scored(1, 0.9), Scored(2, 0.2)];
    assert Enumerate(row) == ranked by {
      assert |Enumerate(row)| == 3;
      assert Enumerate(row)[0] == ranked[0] && Enumerate(row)[1] == ranked[1] && Enumerate(row)[2] == ranked[2];
    }
    assert StrictlyRanked(ranked);
    RankRowRanked(row);
    RankedUnique(ranked, RankRow(row));
  }

  /** Worked example: the row `[1, 0.9, 0.2]` keeps `[1]` for one result and `[1, 2]` for two. */
  lemma ExampleTopN(row: seq<Score>)
    requires row == [1.0, 0.9, 0.2]
    ensures TopN(row, 1) == [1]
    ensures TopN(row, 2) == [1, 2]
  {
    ExampleRanked(row);
    var r := RankRow(row);
    assert PySlice(r, 1, 2) == [r[1]];
    assert PySlice(r, 1, 3) == [r[1], r[2]];
  }
}
