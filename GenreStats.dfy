/** The per-genre aggregates over the merged table: the overall mean and
    row count (lines 56-57), avg_rate and its loop (64-75), the percentage
    loop (136-139) and the top five genres (141-143). */
module GenreStats {
  import opened Wrappers
  import opened GenreFlags
  import opened RatingJoin

  /** movie[g] == 1 holds for the row. A missing flag (NaN) compares false. */
  predicate Flagged(row: JoinedRow, g: string)
  {
    g in row.movie.flags && row.movie.flags[g] == Some(1)
  }

  /** movie[movie[g] == 1]: the flagged rows, in table order. */
  function GenreSubset(rows: seq<JoinedRow>, g: string): (sub: seq<JoinedRow>)
    ensures |sub| <= |rows|
    ensures forall row :: row in sub <==> row in rows && Flagged(row, g)
    decreases |rows|
  {
    if rows == [] then []
    else
      assert rows == [rows[0]] + rows[1..];
      (if Flagged(rows[0], g) then [rows[0]] else []) + GenreSubset(rows[1..], g)
  }

  /** The 'Rating' column of a table. */
  function RatingColumn(rows: seq<JoinedRow>): (col: seq<int>)
    ensures |col| == |rows|
    ensures forall i :: 0 <= i < |rows| ==> col[i] == rows[i].rating.rating
  {
    seq(|rows|, i requires 0 <= i < |rows| => rows[i].rating.rating)
  }

  function Sum(xs: seq<int>): int
    decreases |xs|
  {
    if xs == [] then 0 else xs[0] + Sum(xs[1..])
  }

  /** An exact mean: the sum of a column over its (positive) length. The
      script computes it in floating point; the model keeps the fraction. */
  datatype Ratio = Ratio(total: int, count: nat)

  function Value(q: Ratio): real
    requires q.count > 0
  {
    q.total as real / q.count as real
  }

  /** np.mean: undefined (NaN) on an empty column, otherwise the column's
      sum over its length. */
  function Mean(xs: seq<int>): (m: Option<Ratio>)
    ensures m.None? <==> xs == []
    ensures m.Some? ==> m.value == Ratio(Sum(xs), |xs|) && m.value.count > 0
  {
    if xs == [] then None else Some(Ratio(Sum(xs), |xs|))
  }

  lemma {:induction false} SumBetween(xs: seq<int>, lo: int, hi: int)
    requires forall i :: 0 <= i < |xs| ==> lo <= xs[i] <= hi
    ensures lo * |xs| <= Sum(xs) <= hi * |xs|
    decreases |xs|
  {
    if xs != [] {
      SumBetween(xs[1..], lo, hi);
      assert lo * |xs| == lo + lo * |xs[1..]|;
      assert hi * |xs| == hi + hi * |xs[1..]|;
    }
  }

  /** A mean lies between any bounds of its values. */
  lemma MeanBetween(xs: seq<int>, lo: int, hi: int)
    requires xs != []
    requires forall i :: 0 <= i < |xs| ==> lo <= xs[i] <= hi
    ensures lo as real <= Value(Mean(xs).value) <= hi as real
  {
    SumBetween(xs, lo, hi);
    var n := |xs|;
    IntScale(lo, n);
    IntScale(hi, n);
    ValueTimesCount(Mean(xs).value);
    Bracket(lo as real, Value(Mean(xs).value), hi as real, n as real, Sum(xs) as real);
  }

  lemma ValueTimesCount(q: Ratio)
    requires q.count > 0
    ensures Value(q) * (q.count as real) == q.total as real
  {
  }

  lemma IntScale(a: int, n: int)
    ensures (a * n) as real == (a as real) * (n as real)
  {
  }

  lemma Bracket(lo: real, m: real, hi: real, n: real, total: real)
    requires n > 0.0
    requires m * n == total
    requires lo * n <= total <= hi * n
    ensures lo <= m <= hi
  {
    ScaleCompare(lo, m, n);
    ScaleCompare(m, hi, n);
  }

  lemma ScaleCompare(a: real, b: real, n: real)
    requires n > 0.0
    requires a * n <= b * n
    ensures a <= b
  {
  }

  /** avg_rating = np.mean(movie['Rating']) (line 57). */
  function OverallMean(rows: seq<JoinedRow>): (m: Option<Ratio>)
    ensures m.None? <==> rows == []
    ensures m.Some? ==> m.value == Ratio(RatingSum(rows), |rows|)
  {
    RatingSumIsSum(rows);
    Mean(RatingColumn(rows))
  }

  /** The sum of all ratings, by direct recursion over the rows. */
  function RatingSum(rows: seq<JoinedRow>): int
    decreases |rows|
  {
    if rows == [] then 0 else rows[0].rating.rating + RatingSum(rows[1..])
  }

  /** The number of rows with the genre flag set, by direct recursion. */
  function FlagCount(rows: seq<JoinedRow>, g: string): nat
    decreases |rows|
  {
    if rows == [] then 0 else (if Flagged(rows[0], g) then 1 else 0) + FlagCount(rows[1..], g)
  }

  /** The sum of the ratings of the flagged rows, by direct recursion. */
  function FlaggedRatingSum(rows: seq<JoinedRow>, g: string): int
    decreases |rows|
  {
    if rows == [] then 0
    else (if Flagged(rows[0], g) then rows[0].rating.rating else 0) + FlaggedRatingSum(rows[1..], g)
  }

  lemma {:induction false} RatingSumIsSum(rows: seq<JoinedRow>)
    ensures Sum(RatingColumn(rows)) == RatingSum(rows)
    decreases |rows|
  {
    if rows != [] {
      RatingSumIsSum(rows[1..]);
      assert RatingColumn(rows)[1..] == RatingColumn(rows[1..]);
    }
  }

  lemma {:induction false} SubsetCounts(rows: seq<JoinedRow>, g: string)
    ensures |GenreSubset(rows, g)| == FlagCount(rows, g)
    ensures Sum(RatingColumn(GenreSubset(rows, g))) == FlaggedRatingSum(rows, g)
  {
    SubsetSum(rows, g);
    RatingSumIsSum(GenreSubset(rows, g));
  }

  lemma {:induction false} SubsetSum(rows: seq<JoinedRow>, g: string)
    ensures |GenreSubset(rows, g)| == FlagCount(rows, g)
    ensures RatingSum(GenreSubset(rows, g)) == FlaggedRatingSum(rows, g)
    decreases |rows|
  {
    if rows != [] {
      SubsetSum(rows[1..], g);
      var rest := GenreSubset(rows[1..], g);
      if Flagged(rows[0], g) {
        assert GenreSubset(rows, g) == [rows[0]] + rest;
        assert ([rows[0]] + rest)[1..] == rest;
      } else {
        assert GenreSubset(rows, g) == rest;
      }
    }
  }

  lemma NoneFlagged(rows: seq<JoinedRow>, g: string)
    ensures GenreSubset(rows, g) == [] <==> forall i :: 0 <= i < |rows| ==> !Flagged(rows[i], g)
  {
    if GenreSubset(rows, g) != [] {
      assert GenreSubset(rows, g)[0] in rows;
    }
    if exists i :: 0 <= i < |rows| && Flagged(rows[i], g) {
      var i :| 0 <= i < |rows| && Flagged(rows[i], g);
      assert rows[i] in GenreSubset(rows, g);
    }
  }

  /** avg_rate(g) (lines 64-67): the mean rating over the flagged rows;
      undefined exactly when no row carries the flag. */
  function AvgRate(rows: seq<JoinedRow>, g: string): (r: Option<Ratio>)
    ensures r.None? <==> forall i :: 0 <= i < |rows| ==> !Flagged(rows[i], g)
    ensures r.Some? ==> r.value == Ratio(FlaggedRatingSum(rows, g), FlagCount(rows, g))
  {
    SubsetCounts(rows, g);
    NoneFlagged(rows, g);
    Mean(RatingColumn(GenreSubset(rows, g)))
  }

  /** When every rating lies in [lo, hi], so does every defined genre mean. */
  lemma AvgRateBetween(rows: seq<JoinedRow>, g: string, lo: int, hi: int)
    requires forall i :: 0 <= i < |rows| ==> lo <= rows[i].rating.rating <= hi
    requires AvgRate(rows, g).Some?
    ensures lo as real <= Value(AvgRate(rows, g).value) <= hi as real
  {
    var col := RatingColumn(GenreSubset(rows, g));
    forall i | 0 <= i < |col|
      ensures lo <= col[i] <= hi
    {
      assert GenreSubset(rows, g)[i] in rows;
    }
    MeanBetween(col, lo, hi);
  }

  /** Lines 70-75: the loop over the genre list collecting each name and its
      average rating. */
  method RatingByGenre(movie: seq<JoinedRow>) returns (genre: seq<string>, rating: seq<Option<Ratio>>)
    ensures genre == GenreList
    ensures |rating| == |GenreList|
    ensures forall k :: 0 <= k < |GenreList| ==> rating[k] == AvgRate(movie, GenreList[k])
  {
    rating := [];
    genre := [];
    for k := 0 to |GenreList|
      invariant genre == GenreList[..k]
      invariant |rating| == k
      invariant forall j :: 0 <= j < k ==> rating[j] == AvgRate(movie, GenreList[j])
    {
      var avgRating := AvgRate(movie, GenreList[k]);
      rating := rating + [avgRating];
      genre := genre + [GenreList[k]];
      assert GenreList[..k + 1] == GenreList[..k] + [GenreList[k]];
    }
    assert GenreList[..|GenreList|] == GenreList;
  }

  /** np.sum(movie[g] == 1) / n * 100 (line 137): undefined (0/0 is NaN
      in numpy) when the merged table is empty. */
  function Percent(rows: seq<JoinedRow>, g: string): (p: Option<real>)
    ensures p.None? <==> rows == []
    ensures p.Some? ==> p.value * (|rows| as real) == 100.0 * FlagCount(rows, g) as real
    ensures p.Some? ==> 0.0 <= p.value <= 100.0
  {
    FlagCountAtMost(rows, g);
    if rows == [] then None
    else
      var n := |rows| as real;
      var c := FlagCount(rows, g) as real;
      assert c / n <= 1.0 by { ScaleCompare(c / n, 1.0, n); }
      Some(c / n * 100.0)
  }

  lemma {:induction false} FlagCountAtMost(rows: seq<JoinedRow>, g: string)
    ensures FlagCount(rows, g) <= |rows|
    decreases |rows|
  {
    if rows != [] {
      FlagCountAtMost(rows[1..], g);
    }
  }

  /** Lines 136-139: the percentage of every genre, in genre-list order. */
  method Percentages(movie: seq<JoinedRow>) returns (percentages: seq<Option<real>>)
    ensures |percentages| == |GenreList|
    ensures forall k :: 0 <= k < |GenreList| ==> percentages[k] == Percent(movie, GenreList[k])
  {
    percentages := [];
    for k := 0 to |GenreList|
      invariant |percentages| == k
      invariant forall j :: 0 <= j < k ==> percentages[j] == Percent(movie, GenreList[j])
    {
      var percent := Percent(movie, GenreList[k]);
      percentages := percentages + [percent];
    }
  }

  /** One row of percents_by_genre (line 141). */
  datatype GenreShare = GenreShare(genre: string, percent: Option<real>)

  /** percents_by_genre: the genre names beside their percentages. */
  function Shares(genre: seq<string>, percentages: seq<Option<real>>): (shares: seq<GenreShare>)
    requires |genre| == |percentages|
    ensures |shares| == |genre|
    ensures forall k :: 0 <= k < |genre| ==> shares[k] == GenreShare(genre[k], percentages[k])
  {
    seq(|genre|, k requires 0 <= k < |genre| => GenreShare(genre[k], percentages[k]))
  }

  /** The order of sort_values(ascending=False): larger percentages first,
      NaN after every number. */
  predicate AtLeast(a: GenreShare, b: GenreShare)
  {
    b.percent.None? || (a.percent.Some? && a.percent.value >= b.percent.value)
  }

  predicate Descending(s: seq<GenreShare>)
  {
    forall i, j :: 0 <= i < j < |s| ==> AtLeast(s[i], s[j])
  }

  function InsertShare(x: GenreShare, s: seq<GenreShare>): (r: seq<GenreShare>)
    requires Descending(s)
    ensures Descending(r)
    ensures multiset(r) == multiset(s) + multiset{x}
    decreases |s|
  {
    if s == [] then [x]
    else if AtLeast(x, s[0]) then [x] + s
    else
      var rest := InsertShare(x, s[1..]);
      assert s == [s[0]] + s[1..];
      assert forall y :: y in rest ==> AtLeast(s[0], y) by {
        forall y | y in rest
          ensures AtLeast(s[0], y)
        {
          assert y in multiset(rest);
          if y != x {
            assert y in multiset(s[1..]);
            var j :| 0 <= j < |s[1..]| && s[1..][j] == y;
            assert s[j + 1] == y;
          }
        }
      }
      [s[0]] + rest
  }

  /** percents_by_genre.sort_values(by='Percent of Total', ascending=False):
      a descending rearrangement of the rows. */
  function SortDescending(s: seq<GenreShare>): (r: seq<GenreShare>)
    ensures Descending(r)
    ensures multiset(r) == multiset(s)
    decreases |s|
  {
    if s == [] then []
    else
      assert s == [s[0]] + s[1..];
      InsertShare(s[0], SortDescending(s[1..]))
  }

  /** [0:5] of the sorted table (line 142): min(5, rows) rows of the table,
      in descending order, each at least every row not chosen. */
  function TopFive(shares: seq<GenreShare>): (top: seq<GenreShare>)
    ensures |top| == if |shares| < 5 then |shares| else 5
    ensures multiset(top) <= multiset(shares)
    ensures Descending(top)
    ensures forall x, y :: x in top && y in shares && y !in top ==> AtLeast(x, y)
  {
    var sorted := SortDescending(shares);
    SortedLength(sorted, shares);
    var m := if |sorted| < 5 then |sorted| else 5;
    SortedPrefixShape(sorted, shares, m);
    SortedPrefixDominates(sorted, shares, m);
    sorted[..m]
  }

  lemma SortedLength(sorted: seq<GenreShare>, shares: seq<GenreShare>)
    requires multiset(sorted) == multiset(shares)
    ensures |sorted| == |shares|
  {
    assert |multiset(sorted)| == |multiset(shares)|;
  }

  /** A prefix of a descending rearrangement is part of the table and is
      itself descending. */
  lemma SortedPrefixShape(sorted: seq<GenreShare>, shares: seq<GenreShare>, m: nat)
    requires Descending(sorted) && multiset(sorted) == multiset(shares)
    requires m <= |sorted|
    ensures multiset(sorted[..m]) <= multiset(shares)
    ensures Descending(sorted[..m])
  {
    assert sorted == sorted[..m] + sorted[m..];
    assert multiset(sorted) == multiset(sorted[..m]) + multiset(sorted[m..]);
  }

  /** Every row of a prefix of a descending rearrangement is at least every
      row of the table left out of the prefix. */
  lemma SortedPrefixDominates(sorted: seq<GenreShare>, shares: seq<GenreShare>, m: nat)
    requires Descending(sorted) && multiset(sorted) == multiset(shares)
    requires m <= |sorted|
    ensures forall x, y :: x in sorted[..m] && y in shares && y !in sorted[..m] ==> AtLeast(x, y)
  {
    var top := sorted[..m];
    forall x, y | x in top && y in shares && y !in top
      ensures AtLeast(x, y)
    {
      var i :| 0 <= i < |top| && top[i] == x;
      assert y in multiset(shares);
      assert y in multiset(sorted);
      var j :| 0 <= j < |sorted| && sorted[j] == y;
      assert j >= |top|;
      assert sorted[i] == x;
    }
  }

  /** genre_list2 = list(top_5['Genre']) (line 143). */
  function TopGenres(shares: seq<GenreShare>): (names: seq<string>)
    ensures |names| == |TopFive(shares)|
    ensures forall k :: 0 <= k < |names| ==> names[k] == TopFive(shares)[k].genre
  {
    var top := TopFive(shares);
    seq(|top|, k requires 0 <= k < |top| => top[k].genre)
  }

  /** The 18 genre names are distinct. */
  lemma GenreListDistinct()
    ensures forall i, j :: 0 <= i < j < |GenreList| ==> GenreList[i] != GenreList[j]
  {
  }

  /** genre_list2 for the percentages of lines 136-139: five distinct genre
      names of the list, and every chosen genre's percentage is at least
      that of every genre not chosen (NaN counting as the least). */
  lemma TopGenresChoice(percentages: seq<Option<real>>)
    requires |percentages| == |GenreList|
    ensures var names := TopGenres(Shares(GenreList, percentages));
      && |names| == 5
      && (forall k :: 0 <= k < |names| ==> names[k] in GenreList)
      && (forall k, l :: 0 <= k < l < |names| ==> names[k] != names[l])
      && (forall i, j :: (0 <= i < |GenreList| && 0 <= j < |GenreList| &&
                          GenreList[i] in names && GenreList[j] !in names) ==>
            AtLeast(GenreShare(GenreList[i], percentages[i]), GenreShare(GenreList[j], percentages[j])))
  {
    TopRowsFromTable(Shares(GenreList, percentages));
    TopNamesDistinct(percentages);
    TopNamesDominate(percentages);
  }

  /** Each chosen row is a row of the table. */
  lemma TopRowsFromTable(shares: seq<GenreShare>)
    ensures forall k :: 0 <= k < |TopFive(shares)| ==> TopFive(shares)[k] in shares
  {
    var top := TopFive(shares);
    forall k | 0 <= k < |top|
      ensures top[k] in shares
    {
      assert top[k] in multiset(top);
      assert top[k] in multiset(shares);
    }
  }

  /** No genre is chosen twice. */
  lemma TopNamesDistinct(percentages: seq<Option<real>>)
    requires |percentages| == |GenreList|
    ensures var names := TopGenres(Shares(GenreList, percentages));
      forall k, l :: 0 <= k < l < |names| ==> names[k] != names[l]
  {
    var shares := Shares(GenreList, percentages);
    var top := TopFive(shares);
    var names := TopGenres(shares);
    TopRowsFromTable(shares);
    GenreListDistinct();
    forall k, l | 0 <= k < l < |names|
      ensures names[k] != names[l]
    {
      var a :| 0 <= a < |shares| && shares[a] == top[k];
      var b :| 0 <= b < |shares| && shares[b] == top[l];
      if names[k] == names[l] {
        assert GenreList[a] == GenreList[b];
        assert a == b;
        CountTwo(top, k, l);
        SharesOnce(percentages, a);
        assert false;
      }
    }
  }

  /** A chosen genre's row is at least the row of any genre not chosen. */
  lemma TopNamesDominate(percentages: seq<Option<real>>)
    requires |percentages| == |GenreList|
    ensures var names := TopGenres(Shares(GenreList, percentages));
      forall i, j :: (0 <= i < |GenreList| && 0 <= j < |GenreList| &&
                      GenreList[i] in names && GenreList[j] !in names) ==>
        AtLeast(GenreShare(GenreList[i], percentages[i]), GenreShare(GenreList[j], percentages[j]))
  {
    var shares := Shares(GenreList, percentages);
    var top := TopFive(shares);
    var names := TopGenres(shares);
    TopRowsFromTable(shares);
    GenreListDistinct();
    forall i, j | 0 <= i < |GenreList| && 0 <= j < |GenreList| && GenreList[i] in names && GenreList[j] !in names
      ensures AtLeast(shares[i], shares[j])
    {
      var k :| 0 <= k < |names| && names[k] == GenreList[i];
      var a :| 0 <= a < |shares| && shares[a] == top[k];
      assert GenreList[a] == GenreList[i];
      assert a == i;
      ChosenName(shares, shares[j]);
    }
  }

  /** A chosen row's genre is among the chosen names. */
  lemma ChosenName(shares: seq<GenreShare>, x: GenreShare)
    ensures x in TopFive(shares) ==> x.genre in TopGenres(shares)
  {
    var top := TopFive(shares);
    if x in top {
      var l :| 0 <= l < |top| && top[l] == x;
      assert TopGenres(shares)[l] == x.genre;
    }
  }

  /** A value at two positions of a sequence occurs at least twice in it. */
  lemma CountTwo(s: seq<GenreShare>, k: nat, l: nat)
    requires k < l < |s| && s[k] == s[l]
    ensures multiset(s)[s[k]] >= 2
  {
    assert s == s[..l] + s[l..];
    assert s[k] in s[..l];
    assert s[l..][0] == s[l];
    assert multiset(s) == multiset(s[..l]) + multiset(s[l..]);
  }

  /** Each row of percents_by_genre occurs once: the genre names are
      distinct. */
  lemma SharesOnce(percentages: seq<Option<real>>, a: nat)
    requires |percentages| == |GenreList| && a < |GenreList|
    ensures multiset(Shares(GenreList, percentages))[Shares(GenreList, percentages)[a]] == 1
  {
    GenreListDistinct();
    var shares := Shares(GenreList, percentages);
    assert shares == shares[..a] + [shares[a]] + shares[a + 1..];
    assert shares[a] !in shares[..a] by {
      forall b | 0 <= b < a ensures shares[..a][b] != shares[a] {
        assert GenreList[b] != GenreList[a];
      }
    }
    var rest := shares[a + 1..];
    assert shares[a] !in rest by {
      forall b | 0 <= b < |rest| ensures rest[b] != shares[a] {
        assert GenreList[a + 1 + b] != GenreList[a];
      }
    }
    assert multiset(shares) == multiset(shares[..a]) + multiset([shares[a]]) + multiset(rest);
  }
}
