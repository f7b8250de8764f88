/**
  The recommendation ranker, `recommend_cars`: one row of the similarity
  matrix is paired with its column indices, sorted by descending score with
  Python's stable sort, the first pair of the sorted list is dropped and the
  next `top_n` indices are kept.  The scores are exact reals handed in by the
  caller; how they were computed is not part of this module.
*/
module Ranking {
  import opened Wrappers
  import opened Seqs
  import opened Columns

  /** One entry of `list(enumerate(row))`: a column index and its score. */
  datatype Scored = Scored(index: nat, score: real)

  /** Rows of `df.iloc[top_indices]` and the columns shown for them. */
  datatype Recommendation = Recommendation(positions: seq<nat>, columns: seq<string>)

  datatype RankError = IndexError

  function Enumerate(row: seq<real>): (r: seq<Scored>)
    ensures |r| == |row|
    ensures forall i :: 0 <= i < |r| ==> r[i].index == i && r[i].score == row[i]
  {
    seq(|row|, i requires 0 <= i < |row| => Scored(i, row[i]))
  }

  /** `a` comes before `b` in the ranking: a higher score, or the same score and a lower index. */
  predicate Precedes(a: Scored, b: Scored)
  {
    a.score > b.score || (a.score == b.score && a.index < b.index)
  }

  /** Descending by score, ties in ascending index order. */
  predicate Ranked(s: seq<Scored>)
  {
    forall i, j :: 0 <= i < j < |s| ==> Precedes(s[i], s[j])
  }

  predicate IndexAscending(s: seq<Scored>)
  {
    forall i, j :: 0 <= i < j < |s| ==> s[i].index < s[j].index
  }

  /**
    Inserts `x` in front of the first pair it does not score below, so `x`
    goes ahead of every pair it ties with.
  */
  function Insert(x: Scored, s: seq<Scored>): (r: seq<Scored>)
    ensures multiset(r) == multiset(s) + multiset{x}
  {
    if s == [] || x.score >= s[0].score then [x] + s
    else
      assert s == [s[0]] + s[1..];
      [s[0]] + Insert(x, s[1..])
  }

  /**
    `sorted(s, key=lambda x: x[1], reverse=True)`: each pair is inserted
    ahead of the pairs that follow it in `s` and tie with it, which is
    Python's stability guarantee for `reverse=True`.
  */
  function SortDesc(s: seq<Scored>): (r: seq<Scored>)
    ensures multiset(r) == multiset(s)
  {
    if s == [] then []
    else
      assert s == [s[0]] + s[1..];
      Insert(s[0], SortDesc(s[1..]))
  }

  lemma {:induction false} InsertRanked(x: Scored, s: seq<Scored>)
    requires Ranked(s)
    requires forall y :: y in s ==> x.index < y.index
    ensures Ranked(Insert(x, s))
  {
    if s == [] || x.score >= s[0].score {
      var r := [x] + s;
      forall i, j | 0 <= i < j < |r| ensures Precedes(r[i], r[j]) {
        if i == 0 {
          assert r[j] == s[j - 1] && r[j] in s;
          if j > 1 { assert Precedes(s[0], s[j - 1]); }
        } else {
          assert r[i] == s[i - 1] && r[j] == s[j - 1];
        }
      }
    } else {
      var t := s[1..];
      assert forall y :: y in t ==> y in s;
      InsertRanked(x, t);
      var u := Insert(x, t);
      var r := [s[0]] + u;
      forall i, j | 0 <= i < j < |r| ensures Precedes(r[i], r[j]) {
        if i == 0 {
          var y := r[j];
          assert y == u[j - 1] && y in multiset(u);
          assert y in multiset(t) || y == x;
          if y != x {
            assert y in t;
            var k :| 0 <= k < |t| && t[k] == y;
            assert Precedes(s[0], s[k + 1]);
          }
        } else {
          assert r[i] == u[i - 1] && r[j] == u[j - 1];
        }
      }
    }
  }

  lemma {:induction false} SortRanked(s: seq<Scored>)
    requires IndexAscending(s)
    ensures Ranked(SortDesc(s))
  {
    if s != [] {
      var t := s[1..];
      assert IndexAscending(t);
      SortRanked(t);
      forall y | y in SortDesc(t) ensures s[0].index < y.index {
        assert y in multiset(SortDesc(t));
        var k :| 0 <= k < |t| && t[k] == y;
        assert s[k + 1] == y;
      }
      InsertRanked(s[0], SortDesc(t));
    }
  }

  /**
    Lines 66-67: the row's pairs in ranking order.  The result holds each
    column index exactly once, with its own score.
  */
  function Ranking(row: seq<real>): (r: seq<Scored>)
    ensures |r| == |row|
    ensures Ranked(r)
    ensures forall i :: 0 <= i < |r| ==> r[i].index < |row| && r[i].score == row[r[i].index]
    ensures forall i, j :: 0 <= i < j < |r| ==> r[i].index != r[j].index
    ensures multiset(r) == multiset(Enumerate(row))
  {
    var e := Enumerate(row);
    var r := SortDesc(e);
    SortRanked(e);
    assert forall x :: x in r <==> x in e by {
      forall x ensures x in r <==> x in e {
        assert x in r <==> x in multiset(r);
        assert x in e <==> x in multiset(e);
      }
    }
    forall i | 0 <= i < |r| ensures r[i].index < |row| && r[i].score == row[r[i].index] {
      assert r[i] in e;
      var j :| 0 <= j < |e| && e[j] == r[i];
    }
    assert |r| == |multiset(r)| == |multiset(e)| == |row|;
    r
  }

  /** Two ranked arrangements of the same pairs start with the same pair. */
  lemma RankedHeads(a: seq<Scored>, b: seq<Scored>)
    requires Ranked(a) && Ranked(b) && multiset(a) == multiset(b)
    requires a != []
    ensures b != [] && a[0] == b[0]
  {
    assert a[0] in multiset(b);
    assert b[0] in multiset(a);
    var i :| 0 <= i < |a| && a[i] == b[0];
    var j :| 0 <= j < |b| && b[j] == a[0];
    if i != 0 && j != 0 {
      assert false;
    }
  }

  lemma TailMultiset(a: seq<Scored>)
    requires a != []
    ensures multiset(a[1..]) == multiset(a) - multiset{a[0]}
  {
    assert a == [a[0]] + a[1..];
  }

  /** Two ranked arrangements of the same pairs are the same sequence. */
  lemma {:induction false} RankedUnique(a: seq<Scored>, b: seq<Scored>)
    requires Ranked(a) && Ranked(b) && multiset(a) == multiset(b)
    ensures a == b
  {
    if a == [] {
      assert |b| == |multiset(b)| == 0;
    } else {
      RankedHeads(a, b);
      TailMultiset(a);
      TailMultiset(b);
      RankedUnique(a[1..], b[1..]);
      assert a == [a[0]] + a[1..] && b == [b[0]] + b[1..];
    }
  }

  /**
    The ranking is the only arrangement of the row's (index, score) pairs that
    is descending by score with ties in ascending index order.
  */
  lemma RankingIsUnique(row: seq<real>, r: seq<Scored>)
    requires multiset(r) == multiset(Enumerate(row))
    requires Ranked(r)
    ensures r == Ranking(row)
  {
    RankedUnique(r, Ranking(row));
  }

  /** Every column index of the row has a place in the ranking, with its own score. */
  lemma PlaceInRanking(row: seq<real>, k: nat) returns (m: nat)
    requires k < |row|
    ensures m < |row| && Ranking(row)[m] == Scored(k, row[k])
  {
    var e := Enumerate(row);
    var r := SortDesc(e);
    assert e[k] == Scored(k, row[k]);
    assert e[k] in multiset(r);
    m :| 0 <= m < |r| && r[m] == e[k];
  }

  function Indices(s: seq<Scored>): (r: seq<nat>)
    ensures |r| == |s|
    ensures forall i :: 0 <= i < |s| ==> r[i] == s[i].index
  {
    seq(|s|, i requires 0 <= i < |s| => s[i].index)
  }

  /** Line 68: `[i[0] for i in similarity_scores[1:top_n+1]]`. */
  function TopIndices(row: seq<real>, topN: int): (r: seq<nat>)
    ensures |r| <= |row|
    ensures forall i :: 0 <= i < |r| ==> r[i] < |row|
  {
    Indices(Slice(Ranking(row), 1, topN + 1))
  }

  /** numpy's row selection `cosine_sim[car_index]`: negative indices count from the end. */
  function RowAt(n: nat, i: int): (r: Option<nat>)
    ensures r.Some? <==> -(n as int) <= i < n
    ensures r.Some? ==> r.value < n && (r.value == i || r.value == i + n)
  {
    if 0 <= i < n then Some(i)
    else if -(n as int) <= i < 0 then Some(i + n)
    else None
  }

  /**
    `recommend_cars(car_index, top_n)` over the similarity matrix `scores` of a
    table with column names `columns`.  An index outside the matrix is
    numpy's IndexError.
  */
  function RecommendCars(columns: seq<string>, scores: seq<seq<real>>, carIndex: int, topN: int := 5)
    : (r: Result<Recommendation, RankError>)
    ensures r.Err? <==> !(-|scores| <= carIndex < |scores|)
    ensures r.Ok? ==> forall c :: c in r.value.columns ==> c in columns
  {
    match RowAt(|scores|, carIndex)
    case None => Err(IndexError)
    case Some(k) => Ok(Recommendation(TopIndices(scores[k], topN), DisplayColumns(columns)))
  }

  /** `similarity_scores[1:top_n+1]` is a run of the ranking that starts just after its head. */
  lemma TopRun(row: seq<real>, topN: int)
    requires row != []
    ensures var t := Slice(Ranking(row), 1, topN + 1);
      1 + |t| <= |row| && t == Ranking(row)[1..1 + |t|]
  {
  }

  /**
    The size of the result: at most N - 1 entries for an N-score row, and
    exactly min(top_n, N - 1) when `top_n` is not negative. A negative
    `top_n` follows Python's slice rules: `[1:0]` is empty for `top_n = -1`,
    and for `top_n <= -2` the upper bound counts from the end, leaving
    max(0, N + top_n) entries.
  */
  lemma TopIndicesSize(row: seq<real>, topN: int)
    requires row != []
    ensures |TopIndices(row, topN)| <= |row| - 1
    ensures topN >= 0 ==> |TopIndices(row, topN)| == if topN <= |row| - 1 then topN else |row| - 1
    ensures topN == -1 ==> TopIndices(row, topN) == []
    ensures topN <= -2 ==> |TopIndices(row, topN)| == if |row| + topN <= 0 then 0 else |row| + topN
  {
  }

  /**
    The returned indices are valid columns, listed by non-increasing score
    with ties in ascending index order, so no index appears twice.
  */
  lemma TopIndicesRanked(row: seq<real>, topN: int)
    requires row != []
    ensures var p := TopIndices(row, topN);
      && (forall i :: 0 <= i < |p| ==> p[i] < |row|)
      && (forall i, j :: 0 <= i < j < |p| ==>
            row[p[i]] > row[p[j]] || (row[p[i]] == row[p[j]] && p[i] < p[j]))
  {
    TopRun(row, topN);
    var s := Ranking(row);
    var p := TopIndices(row, topN);
    assert forall i :: 0 <= i < |p| ==> s[1 + i] == Scored(p[i], row[p[i]]);
    forall i, j | 0 <= i < j < |p|
      ensures row[p[i]] > row[p[j]] || (row[p[i]] == row[p[j]] && p[i] < p[j])
    {
      assert Precedes(s[1 + i], s[1 + j]);
    }
  }

  /** Every column left out, except the dropped head, ranks below all the returned ones. */
  lemma TopIndicesComplete(row: seq<real>, topN: int, k: nat)
    requires k < |row| && k !in TopIndices(row, topN) && k != Ranking(row)[0].index
    ensures var p := TopIndices(row, topN);
      forall i :: 0 <= i < |p| ==> p[i] < |row| && Precedes(Scored(p[i], row[p[i]]), Scored(k, row[k]))
  {
    TopRun(row, topN);
    var s := Ranking(row);
    var p := TopIndices(row, topN);
    assert forall i :: 0 <= i < |p| ==> s[1 + i] == Scored(p[i], row[p[i]]);
    var m := PlaceInRanking(row, k);
    forall i | 1 <= i <= |p| ensures s[i].index != k {
      assert s[i].index == p[i - 1];
    }
    assert m > |p|;
    forall i | 0 <= i < |p| ensures p[i] < |row| && Precedes(Scored(p[i], row[p[i]]), Scored(k, row[k])) {
      assert Precedes(s[1 + i], s[m]);
    }
  }

  /**
    The pair that line 68 drops is the lowest index among the row's maximal
    scores, which need not be `car_index`.
  */
  lemma DroppedIsFirstMaximum(row: seq<real>)
    requires row != []
    ensures var d := Ranking(row)[0].index;
      && d < |row|
      && (forall j :: 0 <= j < |row| ==> row[j] <= row[d])
      && (forall j :: 0 <= j < d ==> row[j] < row[d])
  {
    var s := Ranking(row);
    forall j | 0 <= j < |row| ensures Precedes(s[0], Scored(j, row[j])) || s[0].index == j {
      var m := PlaceInRanking(row, j);
      if m > 0 {
        assert Precedes(s[0], s[m]);
      }
    }
  }

  /** A car whose score is strictly above every other score of its row is never recommended to itself. */
  lemma StrictMaximumExcluded(row: seq<real>, k: nat, topN: int)
    requires k < |row|
    requires forall j :: 0 <= j < |row| && j != k ==> row[j] < row[k]
    ensures k !in TopIndices(row, topN)
  {
    DroppedIsFirstMaximum(row);
    TopRun(row, topN);
    var s := Ranking(row);
    var p := TopIndices(row, topN);
    assert s[0].index == k;
    forall i | 0 <= i < |p| ensures p[i] != k {
      assert p[i] == s[1 + i].index;
    }
  }

  /**
    With two equal scores the first one is dropped: the car at index 1 of a
    row `[1.0, 1.0]` is recommended to itself.
  */
  lemma SelfRecommendedWitness(columns: seq<string>)
    ensures RecommendCars(columns, [[1.0, 1.0], [1.0, 1.0]], 1, 1)
      == Ok(Recommendation([1], DisplayColumns(columns)))
  {
    var row := [1.0, 1.0];
    var s := Ranking(row);
    DroppedIsFirstMaximum(row);
    assert s[0].index == 0;
    TopRun(row, 1);
    TopIndicesSize(row, 1);
    var p := TopIndices(row, 1);
    assert |p| == 1 && p[0] == s[1].index;
    assert p == [1];
  }

  /**
    A negative `top_n` follows Python's slice rules instead of giving an
    empty result: `top_n = -2` on five cars keeps three of them.
  */
  lemma NegativeTopNWitness(row: seq<real>)
    requires |row| == 5
    ensures |TopIndices(row, -2)| == 3
  {
  }

  /** The ranking without the query's own index: `i => i.index != k`. */
  function Other(k: nat): Scored -> bool
  {
    (x: Scored) => x.index != k
  }

  /**
    The first `top_n` indices of the ranking after removing `car_index`
    itself; a negative `top_n` gives no entries.
  */
  function TopOthers(row: seq<real>, k: nat, topN: int): (r: seq<nat>)
    ensures |r| <= (if topN < 0 then 0 else topN)
    ensures forall i :: 0 <= i < |r| ==> r[i] != k
  {
    var t := Filter(Ranking(row), Other(k));
    var n := if topN < 0 then 0 else if topN > |t| then |t| else topN;
    Indices(t[..n])
  }

  /** `recommend_cars` as its comment intends it: the query car itself is what is excluded. */
  function RecommendExcludingSelf(columns: seq<string>, scores: seq<seq<real>>, carIndex: int, topN: int := 5)
    : (r: Result<Recommendation, RankError>)
    ensures r.Err? <==> !(-|scores| <= carIndex < |scores|)
    ensures r.Ok? ==> forall c :: c in r.value.columns ==> c in columns
  {
    match RowAt(|scores|, carIndex)
    case None => Err(IndexError)
    case Some(k) => Ok(Recommendation(TopOthers(scores[k], k, topN), DisplayColumns(columns)))
  }

  /** Where column `k` sits in the ranking, and that the rest is the ranking minus that pair. */
  lemma OthersSplit(row: seq<real>, k: nat) returns (m: nat)
    requires k < |row|
    ensures m < |row| && Ranking(row)[m].index == k
    ensures Filter(Ranking(row), Other(k)) == Ranking(row)[..m] + Ranking(row)[m + 1..]
  {
    var s := Ranking(row);
    m := PlaceInRanking(row, k);
    forall x | x in s[..m] ensures Other(k)(x) {
      var i :| 0 <= i < m && s[i] == x;
    }
    forall x | x in s[m + 1..] ensures Other(k)(x) {
      var i :| m < i < |s| && s[i] == x;
    }
    FilterDropsOne(s, Other(k), m);
  }

  /** Each pair carries the score the row gives its index. */
  predicate ScoresOf(row: seq<real>, t: seq<Scored>)
  {
    forall i :: 0 <= i < |t| ==> t[i].index < |row| && t[i].score == row[t[i].index]
  }

  lemma {:induction false} RankedFilter(s: seq<Scored>, p: Scored -> bool)
    requires Ranked(s)
    ensures Ranked(Filter(s, p))
  {
    if s != [] {
      var t := s[1..];
      RankedFilter(t, p);
      var f := Filter(t, p);
      if p(s[0]) {
        var r := [s[0]] + f;
        forall i, j | 0 <= i < j < |r| ensures Precedes(r[i], r[j]) {
          if i == 0 {
            assert r[j] == f[j - 1] && r[j] in t;
            var q :| 0 <= q < |t| && t[q] == r[j];
            assert s[q + 1] == r[j];
          } else {
            assert r[i] == f[i - 1] && r[j] == f[j - 1];
          }
        }
      }
    }
  }

  /**
    The ranking without the query's own pair: still ranked, each pair with its
    own score, and one pair shorter.
  */
  lemma Others(row: seq<real>, k: nat)
    requires k < |row|
    ensures var t := Filter(Ranking(row), Other(k));
      && Ranked(t) && ScoresOf(row, t)
      && |t| == |row| - 1
      && (forall i :: 0 <= i < |t| ==> t[i].index != k)
  {
    var s := Ranking(row);
    var t := Filter(s, Other(k));
    RankedFilter(s, Other(k));
    var m := OthersSplit(row, k);
    forall i | 0 <= i < |t| ensures t[i].index < |row| && t[i].score == row[t[i].index] {
      assert t[i] in s;
    }
  }

  /** The corrected ranking returns no entries for `top_n <= 0`, otherwise min(top_n, N - 1), and never the query car. */
  lemma TopOthersSize(row: seq<real>, k: nat, topN: int)
    requires k < |row|
    ensures var p := TopOthers(row, k, topN);
      && k !in p
      && |p| == (if topN <= 0 then 0 else if topN <= |row| - 1 then topN else |row| - 1)
  {
    Others(row, k);
    var t := Filter(Ranking(row), Other(k));
    var p := TopOthers(row, k, topN);
    forall i | 0 <= i < |p| ensures p[i] != k {
      assert p[i] == t[i].index;
    }
  }

  /**
    The corrected ranking lists valid columns by non-increasing score, ties in
    ascending index order.
  */
  lemma TopOthersRanked(row: seq<real>, k: nat, topN: int)
    requires k < |row|
    ensures var p := TopOthers(row, k, topN);
      && (forall i :: 0 <= i < |p| ==> p[i] < |row|)
      && (forall i, j :: 0 <= i < j < |p| ==>
            row[p[i]] > row[p[j]] || (row[p[i]] == row[p[j]] && p[i] < p[j]))
  {
    Others(row, k);
    var t := Filter(Ranking(row), Other(k));
    var p := TopOthers(row, k, topN);
    forall i, j | 0 <= i < j < |p|
      ensures row[p[i]] > row[p[j]] || (row[p[i]] == row[p[j]] && p[i] < p[j])
    {
      assert Precedes(t[i], t[j]);
    }
  }

  /** Every car other than the query that the corrected ranking leaves out ranks below all it returns. */
  lemma TopOthersComplete(row: seq<real>, k: nat, topN: int, j: nat)
    requires k < |row| && j < |row| && j != k
    requires j !in TopOthers(row, k, topN)
    ensures var p := TopOthers(row, k, topN);
      forall i :: 0 <= i < |p| ==> p[i] < |row| && Precedes(Scored(p[i], row[p[i]]), Scored(j, row[j]))
  {
    Others(row, k);
    var s := Ranking(row);
    var t := Filter(s, Other(k));
    var p := TopOthers(row, k, topN);
    var q := PlaceInRanking(row, j);
    assert s[q] in t;
    var w :| 0 <= w < |t| && t[w] == s[q];
    forall i | 0 <= i < |p| ensures t[i] != t[w] {
      assert t[i].index == p[i] != j;
    }
    forall i | 0 <= i < |p| ensures p[i] < |row| && Precedes(Scored(p[i], row[p[i]]), Scored(j, row[j])) {
      assert Precedes(t[i], t[w]);
    }
  }

  /**
    When the query car heads its own ranking (in particular when its score
    is strictly maximal), the code as written and the corrected ranking agree.
  */
  lemma TopOthersAgrees(row: seq<real>, k: nat, topN: int)
    requires k < |row| && Ranking(row)[0].index == k
    requires topN >= 0
    ensures TopOthers(row, k, topN) == TopIndices(row, topN)
  {
    var s := Ranking(row);
    var m := OthersSplit(row, k);
    assert m == 0;
    var t := Filter(s, Other(k));
    assert t == s[1..];
    TopRun(row, topN);
    TopIndicesSize(row, topN);
    var p, q := TopOthers(row, k, topN), TopIndices(row, topN);
    var u := Slice(s, 1, topN + 1);
    assert u == t[..|u|];
  }
}
