/**
 * The similarity recommender of the recommendation page: three precomputed
 * similarity matrices are combined with fixed weights, and the neighbours of
 * a property are the columns of its composite row ranked by score.
 */
module Recommender {
  import opened Wrappers
  import opened Sequences

  type Matrix = seq<seq<real>>

  /** `m` is an n-by-n matrix. */
  predicate IsSquare(m: Matrix, n: nat) {
    |m| == n && forall i :: 0 <= i < n ==> |m[i]| == n
  }

  predicate SameShape(a: Matrix, b: Matrix) {
    |a| == |b| && forall i :: 0 <= i < |a| ==> |a[i]| == |b[i]|
  }

  const Weight1: real := 0.5
  const Weight2: real := 0.8
  const Weight3: real := 1.0

  // ---------------------------------------------------------------------------
  // Composite similarity matrix
  // ---------------------------------------------------------------------------

  /** The entry-wise weighted sum of the three similarity matrices. */
  function Composite(s1: Matrix, s2: Matrix, s3: Matrix): (c: Matrix)
    requires SameShape(s1, s2) && SameShape(s1, s3)
    ensures SameShape(c, s1)
    ensures forall i, j :: 0 <= i < |c| && 0 <= j < |c[i]| ==>
      c[i][j] == Weight1 * s1[i][j] + Weight2 * s2[i][j] + Weight3 * s3[i][j]
  {
    seq(|s1|, i requires 0 <= i < |s1| =>
      seq(|s1[i]|, j requires 0 <= j < |s1[i]| =>
        Weight1 * s1[i][j] + Weight2 * s2[i][j] + Weight3 * s3[i][j]))
  }

  predicate InUnitRange(m: Matrix) {
    forall i, j :: 0 <= i < |m| && 0 <= j < |m[i]| ==> 0.0 <= m[i][j] <= 1.0
  }

  /** Scores in [0, 1] combine to scores in [0, 2.3], the sum of the weights. */
  lemma CompositeInRange(s1: Matrix, s2: Matrix, s3: Matrix)
    requires SameShape(s1, s2) && SameShape(s1, s3)
    requires InUnitRange(s1) && InUnitRange(s2) && InUnitRange(s3)
    ensures var c := Composite(s1, s2, s3);
      forall i, j :: 0 <= i < |c| && 0 <= j < |c[i]| ==> 0.0 <= c[i][j] <= 2.3
  {
  }

  /** If cell (i, i) is a maximum of row i in every input and a strict one in
      at least one, it is the strict maximum of row i of the composite. */
  lemma CompositeKeepsStrictRowMaximum(s1: Matrix, s2: Matrix, s3: Matrix, i: nat)
    requires SameShape(s1, s2) && SameShape(s1, s3)
    requires i < |s1| && i < |s1[i]|
    requires forall j :: 0 <= j < |s1[i]| ==>
      s1[i][j] <= s1[i][i] && s2[i][j] <= s2[i][i] && s3[i][j] <= s3[i][i]
    requires forall j :: 0 <= j < |s1[i]| && j != i ==>
      s1[i][j] < s1[i][i] || s2[i][j] < s2[i][i] || s3[i][j] < s3[i][i]
    ensures var c := Composite(s1, s2, s3);
      forall j :: 0 <= j < |c[i]| && j != i ==> c[i][j] < c[i][i]
  {
  }

  /** The matrix whose rows and columns are those of `m` in the order `p`. */
  function Reindex(m: Matrix, p: seq<nat>): (r: Matrix)
    requires IsSquare(m, |m|)
    requires forall k :: 0 <= k < |p| ==> p[k] < |m|
    ensures IsSquare(r, |p|)
  {
    seq(|p|, a requires 0 <= a < |p| =>
      seq(|p|, b requires 0 <= b < |p| => m[p[a]][p[b]]))
  }

  /** Weighting commutes with a common reordering of the property index, so
      the composite stays aligned with an index that all three inputs share. */
  lemma CompositeCommutesWithReindex(s1: Matrix, s2: Matrix, s3: Matrix, p: seq<nat>)
    requires IsSquare(s1, |s1|) && IsSquare(s2, |s1|) && IsSquare(s3, |s1|)
    requires forall k :: 0 <= k < |p| ==> p[k] < |s1|
    ensures SameShape(Reindex(s1, p), Reindex(s2, p)) && SameShape(Reindex(s1, p), Reindex(s3, p))
    ensures IsSquare(Composite(s1, s2, s3), |s1|)
    ensures Composite(Reindex(s1, p), Reindex(s2, p), Reindex(s3, p))
         == Reindex(Composite(s1, s2, s3), p)
  {
    var c := Composite(s1, s2, s3);
    var lhs := Composite(Reindex(s1, p), Reindex(s2, p), Reindex(s3, p));
    var rhs := Reindex(c, p);
    forall a | 0 <= a < |p| ensures lhs[a] == rhs[a] {
      assert |lhs[a]| == |rhs[a]| == |p|;
      forall b | 0 <= b < |p| ensures lhs[a][b] == rhs[a][b] {
        assert rhs[a][b] == c[p[a]][p[b]];
      }
    }
  }

  // ---------------------------------------------------------------------------
  // Ranking one row: a stable sort by score, descending
  // ---------------------------------------------------------------------------

  /** A column position paired with its score, as `enumerate` yields them. */
  datatype Scored = Scored(pos: nat, score: real)

  /** `a` is ranked above `b`: a higher score, or an equal score at an earlier
      column. Python's sort stays stable in reverse order, so this is the
      order in which it leaves the enumerated pairs. */
  predicate Before(a: Scored, b: Scored) {
    a.score > b.score || (a.score == b.score && a.pos < b.pos)
  }

  predicate Ranked(s: seq<Scored>) {
    forall i, j :: 0 <= i < j < |s| ==> Before(s[i], s[j])
  }

  predicate IncreasingPositions(s: seq<Scored>) {
    forall i, j :: 0 <= i < j < |s| ==> s[i].pos < s[j].pos
  }

  /** Every column of the row paired with its score, in column order. */
  function RowScores(row: seq<real>): (r: seq<Scored>)
    ensures |r| == |row| && IncreasingPositions(r)
    ensures forall k :: 0 <= k < |r| ==> r[k].pos < |row| && r[k].score == row[r[k].pos]
  {
    seq(|row|, j requires 0 <= j < |row| => Scored(j, row[j]))
  }

  /** `x` ranks above every element of `s`. */
  predicate Above(x: Scored, s: seq<Scored>) {
    forall k :: 0 <= k < |s| ==> Before(x, s[k])
  }

  /** Every element of `s` comes from a column before `p`. */
  predicate EarlierThan(s: seq<Scored>, p: nat) {
    forall k :: 0 <= k < |s| ==> s[k].pos < p
  }

  lemma AbovePermutation(x: Scored, a: seq<Scored>, b: seq<Scored>)
    requires Above(x, a) && multiset(a) == multiset(b)
    ensures Above(x, b)
  {
    forall k | 0 <= k < |b| ensures Before(x, b[k]) {
      assert b[k] in multiset(a);
    }
  }

  lemma EarlierPermutation(a: seq<Scored>, b: seq<Scored>, p: nat)
    requires EarlierThan(a, p) && multiset(a) == multiset(b)
    ensures EarlierThan(b, p)
  {
    forall k | 0 <= k < |b| ensures b[k].pos < p {
      assert b[k] in multiset(a);
    }
  }

  /** Inserts a pair from a later column after every pair that scores at
      least as high. */
  function Insert(x: Scored, s: seq<Scored>): (r: seq<Scored>)
    requires Ranked(s) && EarlierThan(s, x.pos)
    ensures Ranked(r)
    ensures multiset(r) == multiset(s) + multiset{x}
  {
    if s == [] then [x]
    else if s[0].score >= x.score then
      var rest := Insert(x, s[1..]);
      assert s == [s[0]] + s[1..];
      assert Above(s[0], s[1..] + [x]);
      AbovePermutation(s[0], s[1..] + [x], rest);
      [s[0]] + rest
    else
      assert Above(x, s) by {
        forall k | 0 <= k < |s| ensures Before(x, s[k]) {
          assert k == 0 || Before(s[0], s[k]);
        }
      }
      [x] + s
  }

  /** Stable descending sort of pairs enumerated in column order. */
  function Rank(s: seq<Scored>): (r: seq<Scored>)
    requires IncreasingPositions(s)
    ensures Ranked(r)
    ensures multiset(r) == multiset(s)
  {
    if s == [] then []
    else
      var init, last := s[..|s| - 1], s[|s| - 1];
      var prior := Rank(init);
      EarlierPermutation(init, prior, last.pos);
      assert s == init + [last];
      Insert(last, prior)
  }

  lemma RankedHeadsAgree(a: seq<Scored>, b: seq<Scored>)
    requires Ranked(a) && Ranked(b) && multiset(a) == multiset(b) && a != []
    ensures b != [] && a[0] == b[0]
  {
    assert a[0] in multiset(b) && b[0] in multiset(a);
    var i :| 0 <= i < |b| && b[i] == a[0];
    var j :| 0 <= j < |a| && a[j] == b[0];
    assert i == 0 || Before(b[0], b[i]);
    assert j == 0 || Before(a[0], a[j]);
  }

  lemma RankedTail(a: seq<Scored>)
    requires Ranked(a) && a != []
    ensures Ranked(a[1..])
  {
    forall i, j | 0 <= i < j < |a| - 1 ensures Before(a[1..][i], a[1..][j]) {
      assert a[1..][i] == a[i + 1] && a[1..][j] == a[j + 1];
    }
  }

  /** Two rankings of the same pairs are equal: whatever stable descending
      sort produces the ranking, it is the one `Rank` computes. */
  lemma {:induction false} RankedUnique(a: seq<Scored>, b: seq<Scored>)
    requires Ranked(a) && Ranked(b) && multiset(a) == multiset(b)
    ensures a == b
  {
    if a == [] {
      assert |b| == |multiset(b)| == 0;
    } else {
      RankedHeadsAgree(a, b);
      RankedTail(a);
      RankedTail(b);
      assert a == [a[0]] + a[1..];
      assert b == [b[0]] + b[1..];
      assert multiset(a[1..]) == multiset(a) - multiset{a[0]};
      assert multiset(b[1..]) == multiset(b) - multiset{b[0]};
      RankedUnique(a[1..], b[1..]);
    }
  }

  /** Every pair of `s` is a (column, score) pair of `row`. */
  predicate FromRow(row: seq<real>, s: seq<Scored>) {
    forall k :: 0 <= k < |s| ==> s[k].pos < |row| && s[k].score == row[s[k].pos]
  }

  /** The ranking of a row is a reordering of the row's (column, score) pairs. */
  lemma RankOfRow(row: seq<real>)
    ensures IncreasingPositions(RowScores(row))
    ensures |Rank(RowScores(row))| == |row|
    ensures FromRow(row, Rank(RowScores(row)))
  {
    var s := RowScores(row);
    var r := Rank(s);
    assert |r| == |multiset(r)| == |multiset(s)| == |s|;
    forall k | 0 <= k < |r| ensures r[k].pos < |row| && r[k].score == row[r[k].pos] {
      assert r[k] in multiset(s);
    }
  }

  /** Column `j` of the row occurs in its ranking, at rank `m`. */
  lemma RankOfColumn(row: seq<real>, j: nat) returns (m: nat)
    requires j < |row|
    ensures IncreasingPositions(RowScores(row))
    ensures m < |Rank(RowScores(row))| && Rank(RowScores(row))[m] == Scored(j, row[j])
  {
    var s := RowScores(row);
    assert s[j] == Scored(j, row[j]);
    assert Scored(j, row[j]) in multiset(Rank(s));
    m :| 0 <= m < |Rank(s)| && Rank(s)[m] == Scored(j, row[j]);
  }

  /** Distinct ranks of one row hold distinct columns. */
  lemma RankPositionsDistinct(row: seq<real>, a: nat, b: nat)
    requires a < b < |row|
    ensures |Rank(RowScores(row))| == |row|
    ensures Rank(RowScores(row))[a].pos != Rank(RowScores(row))[b].pos
  {
    RankOfRow(row);
    var r := Rank(RowScores(row));
    assert Before(r[a], r[b]);
  }

  // ---------------------------------------------------------------------------
  // recommend_properties
  // ---------------------------------------------------------------------------

  /** The position of `name` in the index: its first occurrence, or None
      when the index does not hold it. */
  function Lookup(index: seq<string>, name: string): (r: Option<nat>)
    ensures r.None? <==> name !in index
    ensures r.Some? ==> r.value < |index| && index[r.value] == name
    ensures r.Some? ==> forall k :: 0 <= k < r.value ==> index[k] != name
  {
    if index == [] then None
    else if index[0] == name then Some(0)
    else match Lookup(index[1..], name)
      case None => None
      case Some(k) => Some(k + 1)
  }

  /** The column of the pair that heads the ranking and is dropped. */
  function Dropped(row: seq<real>): nat
    requires |row| > 0
  {
    RankOfRow(row);
    Rank(RowScores(row))[0].pos
  }

  /** The columns at ranks 1 to `top_n` of the ranking, by Python's slice
      rules. */
  function TopPositions(row: seq<real>, topN: int): (r: seq<nat>)
    ensures |r| < |row| || |row| == 0
  {
    var picked := Slice(Rank(RowScores(row)), 1, topN + 1);
    assert |Rank(RowScores(row))| == |row| by {
      assert |multiset(Rank(RowScores(row)))| == |multiset(RowScores(row))|;
    }
    seq(|picked|, k requires 0 <= k < |picked| => picked[k].pos)
  }

  /** The k-th returned position is the column at rank 1 + k, and the slice
      keeps `min(top_n, n - 1)` columns when `top_n` is not negative. */
  lemma TopPositionsAreRanks(row: seq<real>, topN: int)
    ensures |Rank(RowScores(row))| == |row|
    ensures |TopPositions(row, topN)| < |row| || |row| == 0
    ensures forall k :: 0 <= k < |TopPositions(row, topN)| ==>
      1 + k < |row| && TopPositions(row, topN)[k] == Rank(RowScores(row))[1 + k].pos
    ensures forall k :: 0 <= k < |TopPositions(row, topN)| ==> TopPositions(row, topN)[k] < |row|
    ensures topN >= 0 && |row| > 0 ==> |TopPositions(row, topN)| == Min(topN, |row| - 1)
  {
    RankOfRow(row);
    var r := Rank(RowScores(row));
    var picked := Slice(r, 1, topN + 1);
    assert |row| > 0 ==> ClampBound(|r|, 1) == 1;
  }

  /** `top_indices` of `recommend_properties`, or None when the name is not in
      the index. */
  function RecommendPositions(index: seq<string>, matrix: Matrix, name: string, topN: int)
    : (r: Option<seq<nat>>)
    requires IsSquare(matrix, |index|)
    ensures r.None? <==> name !in index
    ensures r.Some? ==> forall k :: 0 <= k < |r.value| ==> r.value[k] < |index|
  {
    match Lookup(index, name)
    case None => None
    case Some(idx) =>
      TopPositionsAreRanks(matrix[idx], topN);
      Some(TopPositions(matrix[idx], topN))
  }

  datatype Recommendation = NotFound | Found(names: seq<string>)

  /** `recommend_properties(property_name, top_n)`: the not-found case is an
      explicit empty result; otherwise the names at the ranked positions. */
  function Recommend(index: seq<string>, matrix: Matrix, name: string, topN: int)
    : (r: Recommendation)
    requires IsSquare(matrix, |index|)
    ensures r.NotFound? <==> name !in index
    ensures r.Found? ==>
      var ps := RecommendPositions(index, matrix, name, topN).value;
      |r.names| == |ps| && forall k :: 0 <= k < |ps| ==> r.names[k] == index[ps[k]]
  {
    match RecommendPositions(index, matrix, name, topN)
    case None => NotFound
    case Some(ps) => Found(seq(|ps|, k requires 0 <= k < |ps| => index[ps[k]]))
  }

  // ---------------------------------------------------------------------------
  // Properties of the ranking
  // ---------------------------------------------------------------------------

  function Min(a: int, b: int): int { if a < b then a else b }

  /** Scores are non-increasing in rank order, and equal scores keep the
      earlier column first. */
  lemma TopPositionsOrdered(row: seq<real>, topN: int)
    ensures var ps := TopPositions(row, topN);
      (forall k :: 0 <= k < |ps| ==> ps[k] < |row|) &&
      forall a, b :: 0 <= a < b < |ps| ==>
        row[ps[a]] >= row[ps[b]] && (row[ps[a]] == row[ps[b]] ==> ps[a] < ps[b])
  {
    var ps := TopPositions(row, topN);
    TopPositionsAreRanks(row, topN);
    RankOfRow(row);
    var r := Rank(RowScores(row));
    forall a, b | 0 <= a < b < |ps|
      ensures row[ps[a]] >= row[ps[b]] && (row[ps[a]] == row[ps[b]] ==> ps[a] < ps[b])
    {
      assert Before(r[1 + a], r[1 + b]);
    }
  }

  /** The returned positions are pairwise distinct columns of the row. */
  lemma TopPositionsDistinct(row: seq<real>, topN: int)
    ensures Distinct(TopPositions(row, topN))
    ensures forall k :: 0 <= k < |TopPositions(row, topN)| ==> TopPositions(row, topN)[k] < |row|
  {
    var ps := TopPositions(row, topN);
    var r := Rank(RowScores(row));
    RankOfRow(row);
    TopPositionsAreRanks(row, topN);
    forall a, b | 0 <= a < b < |ps| ensures ps[a] != ps[b] {
      assert ps[a] == r[1 + a].pos && ps[b] == r[1 + b].pos;
      assert Before(r[1 + a], r[1 + b]);
    }
  }

  /** The dropped column is the earliest one with the highest score. */
  lemma DroppedIsEarliestMaximum(row: seq<real>)
    requires |row| > 0
    ensures Dropped(row) < |row|
    ensures forall j :: 0 <= j < |row| && j != Dropped(row) ==>
      row[j] < row[Dropped(row)] || (row[j] == row[Dropped(row)] && Dropped(row) < j)
  {
    RankOfRow(row);
    var r := Rank(RowScores(row));
    var d := Dropped(row);
    forall j | 0 <= j < |row| && j != d
      ensures row[j] < row[d] || (row[j] == row[d] && d < j)
    {
      var m := RankOfColumn(row, j);
      assert Before(r[0], r[m]);
    }
  }

  /** Exactly the head of the ranking is dropped: it is never returned, and
      every returned column ranks above every column that is neither returned
      nor dropped. */
  lemma TopPositionsSkipBest(row: seq<real>, topN: int)
    requires |row| > 0
    ensures Dropped(row) !in TopPositions(row, topN)
    ensures var ps := TopPositions(row, topN);
      (forall k :: 0 <= k < |ps| ==> ps[k] < |row|) &&
      forall a, q :: 0 <= a < |ps| && 0 <= q < |row| && q != Dropped(row) && q !in ps ==>
        row[q] < row[ps[a]] || (row[q] == row[ps[a]] && ps[a] < q)
  {
    RankOfRow(row);
    TopPositionsAreRanks(row, topN);
    var r := Rank(RowScores(row));
    var d := Dropped(row);
    var ps := TopPositions(row, topN);
    forall k | 0 <= k < |ps| ensures ps[k] != d {
      RankPositionsDistinct(row, 0, 1 + k);
    }
    forall a, q | 0 <= a < |ps| && 0 <= q < |row| && q != d && q !in ps
      ensures row[q] < row[ps[a]] || (row[q] == row[ps[a]] && ps[a] < q)
    {
      var m := RankOfColumn(row, q);
      assert forall k :: 1 <= k < 1 + |ps| ==> r[k].pos == ps[k - 1] != q;
      assert m != 0;
      assert Before(r[1 + a], r[m]);
    }
  }

  /** When the self cell is the earliest maximum of its row (in particular,
      when it is the strict maximum), it heads the ranking, so the queried
      property's own column is dropped and not returned. */
  lemma SelfExcludedWhenEarliestMaximum(row: seq<real>, self: nat, topN: int)
    requires self < |row|
    requires forall j :: 0 <= j < |row| && j != self ==>
      row[j] < row[self] || (row[j] == row[self] && self < j)
    ensures Dropped(row) == self
    ensures self !in TopPositions(row, topN)
  {
    DroppedIsEarliestMaximum(row);
    TopPositionsSkipBest(row, topN);
  }

  /** Column `q`, at rank `m`, is returned exactly when `m` lies between 1
      and the number of returned columns, that is between 1 and `top_n` when
      `top_n` is not negative: the queried property is
      recommended exactly when it does not head the ranking and ranks within
      the next `top_n`. */
  lemma ReturnedIffRankedWithin(row: seq<real>, q: nat, m: nat, topN: int)
    requires q < |row|
    requires m < |Rank(RowScores(row))| && Rank(RowScores(row))[m].pos == q
    ensures q in TopPositions(row, topN) <==> 1 <= m < 1 + |TopPositions(row, topN)|
    ensures topN >= 0 ==> (q in TopPositions(row, topN) <==> 1 <= m <= topN)
  {
    ReturnedIffRankedWithinSlice(row, q, m, topN);
    TopPositionsAreRanks(row, topN);
  }

  lemma ReturnedIffRankedWithinSlice(row: seq<real>, q: nat, m: nat, topN: int)
    requires q < |row|
    requires m < |Rank(RowScores(row))| && Rank(RowScores(row))[m].pos == q
    ensures q in TopPositions(row, topN) <==> 1 <= m < 1 + |TopPositions(row, topN)|
  {
    var r := Rank(RowScores(row));
    var ps := TopPositions(row, topN);
    TopPositionsAreRanks(row, topN);
    if q in ps {
      var k :| 0 <= k < |ps| && ps[k] == q;
      assert r[1 + k].pos == q;
      if m < 1 + k {
        RankPositionsDistinct(row, m, 1 + k);
      } else if 1 + k < m {
        RankPositionsDistinct(row, 1 + k, m);
      }
    }
    if 1 <= m < 1 + |ps| {
      assert ps[m - 1] == q;
    }
  }

  /** The number of recommendations the page asks for. */
  const DefaultTopN: int := 5

  /** A found name yields `min(top_n, n - 1)` recommendations. */
  lemma RecommendLength(index: seq<string>, matrix: Matrix, name: string, topN: int)
    requires IsSquare(matrix, |index|)
    requires name in index && topN >= 0
    ensures Recommend(index, matrix, name, topN).Found?
    ensures |Recommend(index, matrix, name, topN).names| == Min(topN, |index| - 1)
  {
    var idx := Lookup(index, name).value;
    TopPositionsAreRanks(matrix[idx], topN);
  }

  /** The page calls the recommender with the default `top_n`, so a found
      name yields `min(5, n - 1)` recommendations. */
  lemma DefaultRecommendLength(index: seq<string>, matrix: Matrix, name: string)
    requires IsSquare(matrix, |index|)
    requires name in index
    ensures Recommend(index, matrix, name, DefaultTopN).Found?
    ensures |Recommend(index, matrix, name, DefaultTopN).names| == Min(5, |index| - 1)
  {
    RecommendLength(index, matrix, name, DefaultTopN);
  }

  /** With distinct property names and a diagonal cell that is the earliest
      maximum of the queried row, the queried property is not among its
      recommendations. */
  lemma RecommendExcludesQueried(index: seq<string>, matrix: Matrix, name: string, i: nat, topN: int)
    requires IsSquare(matrix, |index|)
    requires Distinct(index) && Lookup(index, name) == Some(i)
    requires forall j :: 0 <= j < |index| && j != i ==>
      matrix[i][j] < matrix[i][i] || (matrix[i][j] == matrix[i][i] && i < j)
    ensures Recommend(index, matrix, name, topN).Found?
    ensures name !in Recommend(index, matrix, name, topN).names
  {
    var row := matrix[i];
    assert |row| == |index|;
    var ps := TopPositions(row, topN);
    SelfExcludedWhenEarliestMaximum(matrix[i], i, topN);
    var names := Recommend(index, matrix, name, topN).names;
    forall k | 0 <= k < |names| ensures names[k] != name {
      assert names[k] == index[ps[k]];
      assert ps[k] != i;
    }
  }

  /** Equal scores rank in column order. */
  lemma TiedPairRanking()
    ensures Rank(RowScores([2.3, 2.3])) == [Scored(0, 2.3), Scored(1, 2.3)]
  {
    var s := RowScores([2.3, 2.3]);
    assert s == [Scored(0, 2.3), Scored(1, 2.3)];
    RankedUnique(Rank(s), s);
  }

  /** Here an earlier column ties with the self cell of "B": that column is
      dropped, and "B" itself, at rank 1, is recommended. */
  lemma TieRecommendsQueried()
    ensures Recommend(["A", "B"], [[2.3, 2.3], [2.3, 2.3]], "B", 1) == Found(["B"])
  {
    var row := [2.3, 2.3];
    TiedPairRanking();
    var ranked := Rank(RowScores(row));
    assert ranked[1..2] == [Scored(1, 2.3)];
    assert TopPositions(row, 1) == [1];
    assert Lookup(["A", "B"], "B") == Some(1);
  }
}
