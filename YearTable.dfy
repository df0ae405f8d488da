/** Lines 155-192 of the script: each chosen genre's mean rating per year
    (groupby on 'Year'), the chain of outer merges on 'year', the column
    selections and the restriction to the years from 1950 on. */
module YearTable {
  import opened Wrappers
  import opened GenreFlags
  import opened RatingJoin
  import opened GenreStats

  /** The movie's 'Year' cell, missing when the title gave no year. */
  function RowYear(row: JoinedRow): Option<int>
  {
    row.movie.movie.year
  }

  /** One group of groupby('Year'): the rows of year y, in table order. */
  function YearGroup(sub: seq<JoinedRow>, y: int): (group: seq<JoinedRow>)
    ensures forall row :: row in group <==> row in sub && RowYear(row) == Some(y)
    decreases |sub|
  {
    if sub == [] then []
    else
      assert sub == [sub[0]] + sub[1..];
      (if RowYear(sub[0]) == Some(y) then [sub[0]] else []) + YearGroup(sub[1..], y)
  }

  predicate Increasing(ys: seq<int>)
  {
    forall i, j :: 0 <= i < j < |ys| ==> ys[i] < ys[j]
  }

  function InsertYear(y: int, ys: seq<int>): (r: seq<int>)
    requires Increasing(ys)
    ensures Increasing(r)
    ensures forall z :: z in r <==> z == y || z in ys
    decreases |ys|
  {
    if ys == [] then [y]
    else if y < ys[0] then [y] + ys
    else if y == ys[0] then ys
    else
      assert ys == [ys[0]] + ys[1..];
      var rest := InsertYear(y, ys[1..]);
      assert forall i :: 0 <= i < |rest| ==> ys[0] < rest[i] by {
        forall i | 0 <= i < |rest|
          ensures ys[0] < rest[i]
        {
          assert rest[i] in rest;
          if rest[i] != y {
            var j :| 0 <= j < |ys[1..]| && ys[1..][j] == rest[i];
            assert ys[j + 1] == rest[i];
          }
        }
      }
      [ys[0]] + rest
  }

  /** The group keys: the distinct years present, ascending. Rows with a
      missing year belong to no group. */
  function GroupYears(sub: seq<JoinedRow>): (ys: seq<int>)
    ensures Increasing(ys)
    ensures forall y :: y in ys <==> exists i :: 0 <= i < |sub| && RowYear(sub[i]) == Some(y)
    decreases |sub|
  {
    if sub == [] then []
    else
      var rest := GroupYears(sub[1..]);
      assert forall y :: (exists i :: 0 <= i < |sub| && RowYear(sub[i]) == Some(y)) <==>
        RowYear(sub[0]) == Some(y) || exists i :: 0 <= i < |sub[1..]| && RowYear(sub[1..][i]) == Some(y) by {
        forall y
          ensures (exists i :: 0 <= i < |sub| && RowYear(sub[i]) == Some(y)) ==>
            RowYear(sub[0]) == Some(y) || exists i :: 0 <= i < |sub[1..]| && RowYear(sub[1..][i]) == Some(y)
        {
          if exists i :: 0 <= i < |sub| && RowYear(sub[i]) == Some(y) {
            var i :| 0 <= i < |sub| && RowYear(sub[i]) == Some(y);
            if i > 0 {
              assert sub[1..][i - 1] == sub[i];
            }
          }
        }
        forall y
          ensures (exists i :: 0 <= i < |sub[1..]| && RowYear(sub[1..][i]) == Some(y)) ==>
            exists i :: 0 <= i < |sub| && RowYear(sub[i]) == Some(y)
        {
          if exists i :: 0 <= i < |sub[1..]| && RowYear(sub[1..][i]) == Some(y) {
            var i :| 0 <= i < |sub[1..]| && RowYear(sub[1..][i]) == Some(y);
            assert sub[i + 1] == sub[1..][i];
          }
        }
      }
      match RowYear(sub[0])
      case None => rest
      case Some(y) => InsertYear(y, rest)
  }

  /** A row of a per-genre frame: the year (its index) and the group mean. */
  datatype YearPoint = YearPoint(year: int, mean: Option<Ratio>)

  /** sub['Rating'].groupby(sub['Year']).mean() (line 158). */
  function GroupByYear(sub: seq<JoinedRow>): seq<YearPoint>
  {
    var ys := GroupYears(sub);
    seq(|ys|, i requires 0 <= i < |ys| => YearPoint(ys[i], Mean(RatingColumn(YearGroup(sub, ys[i])))))
  }

  /** The 'year' column of a per-genre frame. */
  function PointYears(points: seq<YearPoint>): (ys: seq<int>)
    ensures |ys| == |points|
    ensures forall i :: 0 <= i < |points| ==> ys[i] == points[i].year
  {
    seq(|points|, i requires 0 <= i < |points| => points[i].year)
  }

  /** The mean a per-genre frame holds for year y; missing without a row. */
  function SeriesLookup(points: seq<YearPoint>, y: int): Option<Ratio>
    decreases |points|
  {
    if points == [] then None
    else if points[0].year == y then points[0].mean
    else SeriesLookup(points[1..], y)
  }

  lemma {:induction false} LookupAt(points: seq<YearPoint>, i: nat)
    requires Increasing(PointYears(points))
    requires i < |points|
    ensures SeriesLookup(points, points[i].year) == points[i].mean
    decreases i
  {
    if i > 0 {
      assert PointYears(points)[0] < PointYears(points)[i];
      assert PointYears(points[1..]) == PointYears(points)[1..];
      LookupAt(points[1..], i - 1);
    }
  }

  lemma {:induction false} LookupMissing(points: seq<YearPoint>, y: int)
    requires y !in PointYears(points)
    ensures SeriesLookup(points, y) == None
    decreases |points|
  {
    if points != [] {
      assert PointYears(points)[0] == points[0].year;
      assert PointYears(points[1..]) == PointYears(points)[1..];
      LookupMissing(points[1..], y);
    }
  }

  /** A year that no row has has an empty group. */
  lemma {:induction false} EmptyGroup(sub: seq<JoinedRow>, y: int)
    requires forall i :: 0 <= i < |sub| ==> RowYear(sub[i]) != Some(y)
    ensures YearGroup(sub, y) == []
    decreases |sub|
  {
    if sub != [] {
      EmptyGroup(sub[1..], y);
    }
  }

  /** The number of rows of year y, by direct recursion. */
  function YearCount(rows: seq<JoinedRow>, y: int): nat
    decreases |rows|
  {
    if rows == [] then 0 else (if RowYear(rows[0]) == Some(y) then 1 else 0) + YearCount(rows[1..], y)
  }

  /** The sum of the ratings of the rows of year y, by direct recursion. */
  function YearRatingSum(rows: seq<JoinedRow>, y: int): int
    decreases |rows|
  {
    if rows == [] then 0
    else (if RowYear(rows[0]) == Some(y) then rows[0].rating.rating else 0) + YearRatingSum(rows[1..], y)
  }

  /** A year's group has one entry per row of that year, repeated rows
      included, and its ratings add up to theirs. */
  lemma {:induction false} YearGroupCounts(sub: seq<JoinedRow>, y: int)
    ensures |YearGroup(sub, y)| == YearCount(sub, y)
    ensures Sum(RatingColumn(YearGroup(sub, y))) == YearRatingSum(sub, y)
  {
    YearGroupSum(sub, y);
    RatingSumIsSum(YearGroup(sub, y));
  }

  lemma {:induction false} YearGroupSum(sub: seq<JoinedRow>, y: int)
    ensures |YearGroup(sub, y)| == YearCount(sub, y)
    ensures RatingSum(YearGroup(sub, y)) == YearRatingSum(sub, y)
    decreases |sub|
  {
    if sub != [] {
      YearGroupSum(sub[1..], y);
      var rest := YearGroup(sub[1..], y);
      if RowYear(sub[0]) == Some(y) {
        assert YearGroup(sub, y) == [sub[0]] + rest;
        assert ([sub[0]] + rest)[1..] == rest;
      } else {
        assert YearGroup(sub, y) == rest;
      }
    }
  }

  /** The per-year frame of a subset: one row per year present, ascending;
      the value of a year is the mean rating of that year's rows, and every
      value is defined. */
  lemma GroupByYearLookup(sub: seq<JoinedRow>)
    ensures Increasing(PointYears(GroupByYear(sub)))
    ensures forall y :: y in PointYears(GroupByYear(sub)) <==> exists i :: 0 <= i < |sub| && RowYear(sub[i]) == Some(y)
    ensures forall y :: (SeriesLookup(GroupByYear(sub), y) ==
                         if YearCount(sub, y) == 0 then None else Some(Ratio(YearRatingSum(sub, y), YearCount(sub, y))))
    ensures forall k :: 0 <= k < |GroupByYear(sub)| ==> GroupByYear(sub)[k].mean.Some?
  {
    var points := GroupByYear(sub);
    var ys := GroupYears(sub);
    assert PointYears(points) == ys;
    forall y
      ensures SeriesLookup(points, y) ==
        if YearCount(sub, y) == 0 then None else Some(Ratio(YearRatingSum(sub, y), YearCount(sub, y)))
    {
      YearGroupCounts(sub, y);
      if y in ys {
        var i :| 0 <= i < |ys| && ys[i] == y;
        LookupAt(points, i);
      } else {
        LookupMissing(points, y);
        EmptyGroup(sub, y);
      }
    }
    forall k | 0 <= k < |points|
      ensures points[k].mean.Some?
    {
      var i :| 0 <= i < |sub| && RowYear(sub[i]) == Some(ys[k]);
      assert sub[i] in YearGroup(sub, ys[k]);
    }
  }

  /** The number of rows flagged g in year y, by direct recursion. */
  function GenreYearCount(rows: seq<JoinedRow>, g: string, y: int): nat
    decreases |rows|
  {
    if rows == [] then 0
    else (if Flagged(rows[0], g) && RowYear(rows[0]) == Some(y) then 1 else 0) + GenreYearCount(rows[1..], g, y)
  }

  /** The sum of the ratings of the rows flagged g in year y, by direct
      recursion. */
  function GenreYearSum(rows: seq<JoinedRow>, g: string, y: int): int
    decreases |rows|
  {
    if rows == [] then 0
    else
      (if Flagged(rows[0], g) && RowYear(rows[0]) == Some(y) then rows[0].rating.rating else 0) +
      GenreYearSum(rows[1..], g, y)
  }

  /** The mean rating of the rows flagged g in year y; missing when there
      are none. */
  function GenreYearMean(rows: seq<JoinedRow>, g: string, y: int): Option<Ratio>
  {
    if GenreYearCount(rows, g, y) == 0 then None
    else Some(Ratio(GenreYearSum(rows, g, y), GenreYearCount(rows, g, y)))
  }

  lemma {:induction false} SubsetYearCounts(rows: seq<JoinedRow>, g: string, y: int)
    ensures YearCount(GenreSubset(rows, g), y) == GenreYearCount(rows, g, y)
    ensures YearRatingSum(GenreSubset(rows, g), y) == GenreYearSum(rows, g, y)
    decreases |rows|
  {
    if rows != [] {
      SubsetYearCounts(rows[1..], g, y);
      var rest := GenreSubset(rows[1..], g);
      if Flagged(rows[0], g) {
        assert GenreSubset(rows, g) == [rows[0]] + rest;
        assert ([rows[0]] + rest)[1..] == rest;
      } else {
        assert GenreSubset(rows, g) == rest;
      }
    }
  }

  /** gen_dfrm of lines 157-159: the genre's rows grouped by year. */
  function GenreByYear(rows: seq<JoinedRow>, g: string): seq<YearPoint>
  {
    GroupByYear(GenreSubset(rows, g))
  }

  /** A genre's per-year frame over the whole table: its years are exactly
      the years that have a row flagged g, ascending, and its value for a
      year is the mean rating of the flagged rows of that year. */
  lemma GenreByYearMeans(rows: seq<JoinedRow>, g: string)
    ensures Increasing(PointYears(GenreByYear(rows, g)))
    ensures forall y :: y in PointYears(GenreByYear(rows, g)) <==> GenreYearCount(rows, g, y) > 0
    ensures forall y :: SeriesLookup(GenreByYear(rows, g), y) == GenreYearMean(rows, g, y)
  {
    SubsetYears(rows, g);
    GroupByYearLookup(GenreSubset(rows, g));
  }

  /** The years and per-year counts of a genre subset, in terms of the rows
      of the whole table. */
  lemma SubsetYears(rows: seq<JoinedRow>, g: string)
    ensures forall y :: (exists i :: 0 <= i < |GenreSubset(rows, g)| && RowYear(GenreSubset(rows, g)[i]) == Some(y)) <==>
      GenreYearCount(rows, g, y) > 0
    ensures forall y :: YearCount(GenreSubset(rows, g), y) == GenreYearCount(rows, g, y)
    ensures forall y :: YearRatingSum(GenreSubset(rows, g), y) == GenreYearSum(rows, g, y)
  {
    forall y
      ensures (exists i :: 0 <= i < |GenreSubset(rows, g)| && RowYear(GenreSubset(rows, g)[i]) == Some(y)) <==>
        GenreYearCount(rows, g, y) > 0
      ensures YearCount(GenreSubset(rows, g), y) == GenreYearCount(rows, g, y)
      ensures YearRatingSum(GenreSubset(rows, g), y) == GenreYearSum(rows, g, y)
    {
      SubsetYearCounts(rows, g, y);
      YearCountPositive(GenreSubset(rows, g), y);
    }
  }

  /** Some row has year y exactly when the count of year y is positive. */
  lemma {:induction false} YearCountPositive(rows: seq<JoinedRow>, y: int)
    ensures (exists i :: 0 <= i < |rows| && RowYear(rows[i]) == Some(y)) <==> YearCount(rows, y) > 0
    decreases |rows|
  {
    if rows != [] {
      YearCountPositive(rows[1..], y);
      if exists i :: 0 <= i < |rows[1..]| && RowYear(rows[1..][i]) == Some(y) {
        var i :| 0 <= i < |rows[1..]| && RowYear(rows[1..][i]) == Some(y);
        assert RowYear(rows[i + 1]) == Some(y);
      }
      if exists i :: 0 <= i < |rows| && RowYear(rows[i]) == Some(y) {
        var i :| 0 <= i < |rows| && RowYear(rows[i]) == Some(y);
        if i > 0 {
          assert RowYear(rows[1..][i - 1]) == Some(y);
        }
      }
    }
  }

  /** Lines 155-160: the per-year frame of every genre of genre_list2. */
  method YearFrames(movie: seq<JoinedRow>, genreList2: seq<string>) returns (dfrmlist: seq<seq<YearPoint>>)
    ensures |dfrmlist| == |genreList2|
    ensures forall k :: 0 <= k < |genreList2| ==> dfrmlist[k] == GenreByYear(movie, genreList2[k])
  {
    dfrmlist := [];
    for k := 0 to |genreList2|
      invariant |dfrmlist| == k
      invariant forall j :: 0 <= j < k ==> dfrmlist[j] == GenreByYear(movie, genreList2[j])
    {
      var genDfrm := GenreByYear(movie, genreList2[k]);
      dfrmlist := dfrmlist + [genDfrm];
    }
  }

  // ---------------------------------------------------------------------
  // Frames keyed by year

  /** A row of a merged frame: the year and one cell per genre column. */
  datatype YearRow = YearRow(year: int, cells: seq<Option<Ratio>>)

  /** A merged frame: the genre column labels and the rows. */
  datatype Frame = Frame(labels: seq<string>, rows: seq<YearRow>)

  predicate Ascending(rows: seq<YearRow>)
  {
    forall i, j :: 0 <= i < j < |rows| ==> rows[i].year < rows[j].year
  }

  predicate Width(rows: seq<YearRow>, w: nat)
  {
    forall i :: 0 <= i < |rows| ==> |rows[i].cells| == w
  }

  /** Years ascending and unique, one cell per column in every row. */
  predicate WellFormed(f: Frame)
  {
    Ascending(f.rows) && Width(f.rows, |f.labels|)
  }

  /** The row of year y, if there is one. */
  function RowAt(rows: seq<YearRow>, y: int): Option<YearRow>
    decreases |rows|
  {
    if rows == [] then None
    else if rows[0].year == y then Some(rows[0])
    else RowAt(rows[1..], y)
  }

  /** Cell k of year y; missing when there is no such row or column. */
  function CellAt(rows: seq<YearRow>, k: nat, y: int): Option<Ratio>
  {
    match RowAt(rows, y)
    case None => None
    case Some(row) => if k < |row.cells| then row.cells[k] else None
  }

  function Nones(w: nat): (cells: seq<Option<Ratio>>)
    ensures |cells| == w
    ensures forall k :: 0 <= k < w ==> cells[k] == None
  {
    seq(w, k => None)
  }

  /** The frame of one per-genre series, labelled with its column name. */
  function SeriesFrame(column: string, points: seq<YearPoint>): (f: Frame)
    requires Increasing(PointYears(points))
    ensures WellFormed(f)
    ensures f.labels == [column]
    ensures forall y :: RowAt(f.rows, y).Some? <==> y in PointYears(points)
    ensures forall y :: CellAt(f.rows, 0, y) == SeriesLookup(points, y)
  {
    var rows := SeriesRows(points);
    SeriesRowsFacts(points);
    Frame([column], rows)
  }

  function SeriesRows(points: seq<YearPoint>): (rows: seq<YearRow>)
    ensures |rows| == |points|
    ensures forall i :: 0 <= i < |points| ==> rows[i] == YearRow(points[i].year, [points[i].mean])
  {
    seq(|points|, i requires 0 <= i < |points| => YearRow(points[i].year, [points[i].mean]))
  }

  lemma {:induction false} SeriesRowsFacts(points: seq<YearPoint>)
    ensures forall y :: RowAt(SeriesRows(points), y).Some? <==> y in PointYears(points)
    ensures forall y :: CellAt(SeriesRows(points), 0, y) == SeriesLookup(points, y)
    decreases |points|
  {
    if points != [] {
      SeriesRowsFacts(points[1..]);
      assert SeriesRows(points)[1..] == SeriesRows(points[1..]);
      assert PointYears(points) == [points[0].year] + PointYears(points[1..]);
    }
  }

  /** pd.merge(left, right, on='year', how='outer') on two frames sorted by
      year: every year of either side, ascending, the left cells then the
      right cells, missing cells where a side has no row for the year. */
  function MergeRows(l: seq<YearRow>, wl: nat, r: seq<YearRow>, wr: nat): (m: seq<YearRow>)
    ensures Years(m) == Years(l) + Years(r)
    ensures |m| <= |l| + |r|
    decreases |l| + |r|
  {
    if l == [] && r == [] then []
    else if r == [] || (l != [] && l[0].year < r[0].year) then
      var rest := MergeRows(l[1..], wl, r, wr);
      var row := YearRow(l[0].year, l[0].cells + Nones(wr));
      YearsCons(row, rest);
      YearsCons(l[0], l[1..]);
      [row] + rest
    else if l == [] || r[0].year < l[0].year then
      var rest := MergeRows(l, wl, r[1..], wr);
      var row := YearRow(r[0].year, Nones(wl) + r[0].cells);
      YearsCons(row, rest);
      YearsCons(r[0], r[1..]);
      [row] + rest
    else
      var rest := MergeRows(l[1..], wl, r[1..], wr);
      var row := YearRow(l[0].year, l[0].cells + r[0].cells);
      YearsCons(row, rest);
      YearsCons(l[0], l[1..]);
      YearsCons(r[0], r[1..]);
      [row] + rest
  }

  /** The years that have a row. */
  function Years(rows: seq<YearRow>): set<int>
    decreases |rows|
  {
    if rows == [] then {} else {rows[0].year} + Years(rows[1..])
  }

  lemma YearsCons(row: YearRow, rows: seq<YearRow>)
    ensures Years([row] + rows) == {row.year} + Years(rows)
  {
    assert ([row] + rows)[1..] == rows;
  }

  lemma {:induction false} MergeWidth(l: seq<YearRow>, wl: nat, r: seq<YearRow>, wr: nat)
    requires Width(l, wl) && Width(r, wr)
    ensures Width(MergeRows(l, wl, r, wr), wl + wr)
    decreases |l| + |r|
  {
    if l == [] && r == [] {
    } else if r == [] || (l != [] && l[0].year < r[0].year) {
      MergeWidth(l[1..], wl, r, wr);
    } else if l == [] || r[0].year < l[0].year {
      MergeWidth(l, wl, r[1..], wr);
    } else {
      MergeWidth(l[1..], wl, r[1..], wr);
    }
  }

  /** Every year of the merge exceeds v when every year of both sides does. */
  lemma {:induction false} MergeAbove(l: seq<YearRow>, wl: nat, r: seq<YearRow>, wr: nat, v: int)
    requires forall i :: 0 <= i < |l| ==> v < l[i].year
    requires forall i :: 0 <= i < |r| ==> v < r[i].year
    ensures forall i :: 0 <= i < |MergeRows(l, wl, r, wr)| ==> v < MergeRows(l, wl, r, wr)[i].year
    decreases |l| + |r|
  {
    if l == [] && r == [] {
    } else if r == [] || (l != [] && l[0].year < r[0].year) {
      MergeAbove(l[1..], wl, r, wr, v);
    } else if l == [] || r[0].year < l[0].year {
      MergeAbove(l, wl, r[1..], wr, v);
    } else {
      MergeAbove(l[1..], wl, r[1..], wr, v);
    }
  }

  lemma {:induction false} MergeAscending(l: seq<YearRow>, wl: nat, r: seq<YearRow>, wr: nat)
    requires Ascending(l) && Ascending(r)
    ensures Ascending(MergeRows(l, wl, r, wr))
    decreases |l| + |r|
  {
    var m := MergeRows(l, wl, r, wr);
    if l == [] && r == [] {
    } else if r == [] || (l != [] && l[0].year < r[0].year) {
      MergeAscending(l[1..], wl, r, wr);
      MergeAbove(l[1..], wl, r, wr, l[0].year);
      assert m == [m[0]] + MergeRows(l[1..], wl, r, wr);
    } else if l == [] || r[0].year < l[0].year {
      MergeAscending(l, wl, r[1..], wr);
      MergeAbove(l, wl, r[1..], wr, r[0].year);
      assert m == [m[0]] + MergeRows(l, wl, r[1..], wr);
    } else {
      MergeAscending(l[1..], wl, r[1..], wr);
      MergeAbove(l[1..], wl, r[1..], wr, l[0].year);
      assert m == [m[0]] + MergeRows(l[1..], wl, r[1..], wr);
    }
  }

  /** No row of an ascending frame has a year below its first row's. */
  lemma {:induction false} RowAtBelow(rows: seq<YearRow>, y: int)
    requires Ascending(rows)
    requires rows != [] && y < rows[0].year
    ensures RowAt(rows, y) == None
    decreases |rows|
  {
    if |rows| > 1 {
      assert rows[0].year < rows[1].year;
      RowAtBelow(rows[1..], y);
    }
  }

  /** The merged frame has a row for y exactly when one side does, and its
      cells are the left side's cells of that year followed by the right
      side's, each missing where its side has no row for y. */
  lemma {:induction false} MergeCells(l: seq<YearRow>, wl: nat, r: seq<YearRow>, wr: nat, y: int)
    requires Ascending(l) && Ascending(r)
    requires Width(l, wl) && Width(r, wr)
    ensures RowAt(MergeRows(l, wl, r, wr), y).Some? <==> RowAt(l, y).Some? || RowAt(r, y).Some?
    ensures forall k: nat :: (CellAt(MergeRows(l, wl, r, wr), k, y) ==
                              if k < wl then CellAt(l, k, y) else CellAt(r, k - wl, y))
    decreases |l| + |r|, 1
  {
    if l == [] && r == [] {
    } else if r == [] || (l != [] && l[0].year < r[0].year) {
      MergeCellsLeft(l, wl, r, wr, y);
    } else if l == [] || r[0].year < l[0].year {
      MergeCellsRight(l, wl, r, wr, y);
    } else {
      MergeCellsBoth(l, wl, r, wr, y);
    }
  }

  /** The case where the left side's first year comes first. */
  lemma {:induction false} MergeCellsLeft(l: seq<YearRow>, wl: nat, r: seq<YearRow>, wr: nat, y: int)
    requires Ascending(l) && Ascending(r)
    requires Width(l, wl) && Width(r, wr)
    requires l != [] && (r == [] || l[0].year < r[0].year)
    ensures RowAt(MergeRows(l, wl, r, wr), y).Some? <==> RowAt(l, y).Some? || RowAt(r, y).Some?
    ensures forall k: nat :: (CellAt(MergeRows(l, wl, r, wr), k, y) ==
                              if k < wl then CellAt(l, k, y) else CellAt(r, k - wl, y))
    decreases |l| + |r|, 0
  {
    MergeCells(l[1..], wl, r, wr, y);
    var m := MergeRows(l, wl, r, wr);
    assert m[1..] == MergeRows(l[1..], wl, r, wr);
    var row := YearRow(l[0].year, l[0].cells + Nones(wr));
    assert m[0] == row;
    if y == l[0].year {
      if r != [] {
        RowAtBelow(r, y);
      }
      assert RowAt(r, y) == None;
      assert |l[0].cells| == wl;
      assert RowAt(m, y) == Some(row);
      assert RowAt(l, y) == Some(l[0]);
      forall k: nat
        ensures CellAt(m, k, y) == if k < wl then CellAt(l, k, y) else CellAt(r, k - wl, y)
      {
        if k < wl {
          assert row.cells[k] == l[0].cells[k];
        } else if k < wl + wr {
          assert row.cells[k] == Nones(wr)[k - wl];
        }
      }
    } else {
      assert RowAt(m, y) == RowAt(m[1..], y);
      assert RowAt(l, y) == RowAt(l[1..], y);
      forall k: nat
        ensures CellAt(m, k, y) == if k < wl then CellAt(l, k, y) else CellAt(r, k - wl, y)
      {
        assert CellAt(m, k, y) == CellAt(m[1..], k, y);
        assert CellAt(l, k, y) == CellAt(l[1..], k, y);
      }
    }
  }

  /** The case where the right side's first year comes first. */
  lemma {:induction false} MergeCellsRight(l: seq<YearRow>, wl: nat, r: seq<YearRow>, wr: nat, y: int)
    requires Ascending(l) && Ascending(r)
    requires Width(l, wl) && Width(r, wr)
    requires r != [] && (l == [] || r[0].year < l[0].year)
    ensures RowAt(MergeRows(l, wl, r, wr), y).Some? <==> RowAt(l, y).Some? || RowAt(r, y).Some?
    ensures forall k: nat :: (CellAt(MergeRows(l, wl, r, wr), k, y) ==
                              if k < wl then CellAt(l, k, y) else CellAt(r, k - wl, y))
    decreases |l| + |r|, 0
  {
    MergeCells(l, wl, r[1..], wr, y);
    var m := MergeRows(l, wl, r, wr);
    assert m[1..] == MergeRows(l, wl, r[1..], wr);
    var row := YearRow(r[0].year, Nones(wl) + r[0].cells);
    assert m[0] == row;
    if y == r[0].year {
      if l != [] {
        RowAtBelow(l, y);
      }
      assert RowAt(l, y) == None;
      assert |r[0].cells| == wr;
      assert RowAt(m, y) == Some(row);
      assert RowAt(r, y) == Some(r[0]);
      forall k: nat
        ensures CellAt(m, k, y) == if k < wl then CellAt(l, k, y) else CellAt(r, k - wl, y)
      {
        if k < wl {
          assert row.cells[k] == Nones(wl)[k];
        } else if k < wl + wr {
          assert row.cells[k] == r[0].cells[k - wl];
        }
      }
    } else {
      assert RowAt(m, y) == RowAt(m[1..], y);
      assert RowAt(r, y) == RowAt(r[1..], y);
      forall k: nat
        ensures CellAt(m, k, y) == if k < wl then CellAt(l, k, y) else CellAt(r, k - wl, y)
      {
        assert CellAt(m, k, y) == CellAt(m[1..], k, y);
        if k >= wl {
          assert CellAt(r, k - wl, y) == CellAt(r[1..], k - wl, y);
        }
      }
    }
  }

  /** The case where both sides start with the same year. */
  lemma {:induction false} MergeCellsBoth(l: seq<YearRow>, wl: nat, r: seq<YearRow>, wr: nat, y: int)
    requires Ascending(l) && Ascending(r)
    requires Width(l, wl) && Width(r, wr)
    requires l != [] && r != [] && l[0].year == r[0].year
    ensures RowAt(MergeRows(l, wl, r, wr), y).Some? <==> RowAt(l, y).Some? || RowAt(r, y).Some?
    ensures forall k: nat :: (CellAt(MergeRows(l, wl, r, wr), k, y) ==
                              if k < wl then CellAt(l, k, y) else CellAt(r, k - wl, y))
    decreases |l| + |r|, 0
  {
    MergeCells(l[1..], wl, r[1..], wr, y);
    var m := MergeRows(l, wl, r, wr);
    assert m[1..] == MergeRows(l[1..], wl, r[1..], wr);
    var row := YearRow(l[0].year, l[0].cells + r[0].cells);
    assert m[0] == row;
    assert |l[0].cells| == wl;
    assert |r[0].cells| == wr;
    if y == l[0].year {
      assert RowAt(m, y) == Some(row);
      assert RowAt(l, y) == Some(l[0]);
      assert RowAt(r, y) == Some(r[0]);
      forall k: nat
        ensures CellAt(m, k, y) == if k < wl then CellAt(l, k, y) else CellAt(r, k - wl, y)
      {
        if k < wl {
          assert row.cells[k] == l[0].cells[k];
        } else if k < wl + wr {
          assert row.cells[k] == r[0].cells[k - wl];
        }
      }
    } else {
      assert RowAt(m, y) == RowAt(m[1..], y);
      assert RowAt(l, y) == RowAt(l[1..], y);
      assert RowAt(r, y) == RowAt(r[1..], y);
      forall k: nat
        ensures CellAt(m, k, y) == if k < wl then CellAt(l, k, y) else CellAt(r, k - wl, y)
      {
        assert CellAt(m, k, y) == CellAt(m[1..], k, y);
        if k < wl {
          assert CellAt(l, k, y) == CellAt(l[1..], k, y);
        } else {
          assert CellAt(r, k - wl, y) == CellAt(r[1..], k - wl, y);
        }
      }
    }
  }

  /** A well-formed frame is fixed by its width, the years that have a row
      and the cells of those years: two frames that agree on these have the
      same rows. */
  lemma {:induction false} FrameDetermined(a: Frame, b: Frame)
    requires WellFormed(a) && WellFormed(b) && |a.labels| == |b.labels|
    requires forall y :: RowAt(a.rows, y).Some? <==> RowAt(b.rows, y).Some?
    requires forall k: nat, y :: k < |a.labels| ==> CellAt(a.rows, k, y) == CellAt(b.rows, k, y)
    ensures a.rows == b.rows
  {
    forall y
      ensures RowAt(a.rows, y) == RowAt(b.rows, y)
    {
      RowAtFound(a.rows, y);
      RowAtFound(b.rows, y);
      if RowAt(a.rows, y).Some? {
        var ra, rb := RowAt(a.rows, y).value, RowAt(b.rows, y).value;
        assert |ra.cells| == |a.labels| && |rb.cells| == |a.labels|;
        forall k | 0 <= k < |ra.cells|
          ensures ra.cells[k] == rb.cells[k]
        {
          assert CellAt(a.rows, k, y) == CellAt(b.rows, k, y);
        }
        assert ra.cells == rb.cells;
      }
    }
    RowsDetermined(a.rows, b.rows);
  }

  /** The row found for a year is a row of the frame with that year. */
  lemma {:induction false} RowAtFound(rows: seq<YearRow>, y: int)
    ensures RowAt(rows, y).Some? ==> RowAt(rows, y).value in rows && RowAt(rows, y).value.year == y
    decreases |rows|
  {
    if rows != [] && rows[0].year != y {
      RowAtFound(rows[1..], y);
    }
  }

  /** No year that has a row in an ascending frame is below its first row's. */
  lemma FirstYearLeast(rows: seq<YearRow>, y: int)
    requires Ascending(rows) && rows != []
    requires RowAt(rows, y).Some?
    ensures rows[0].year <= y
  {
    RowAtFound(rows, y);
    var j :| 0 <= j < |rows| && rows[j] == RowAt(rows, y).value;
    assert j == 0 || rows[0].year < rows[j].year;
  }

  /** Two ascending row lists with the same row for every year are equal. */
  lemma {:induction false} RowsDetermined(a: seq<YearRow>, b: seq<YearRow>)
    requires Ascending(a) && Ascending(b)
    requires forall y :: RowAt(a, y) == RowAt(b, y)
    ensures a == b
    decreases |a|
  {
    if a != [] && b != [] {
      FirstYearLeast(b, a[0].year);
      FirstYearLeast(a, b[0].year);
      assert a[0] == b[0];
      forall y
        ensures RowAt(a[1..], y) == RowAt(b[1..], y)
      {
        if y == a[0].year {
          if |a| > 1 {
            RowAtBelow(a[1..], y);
          }
          if |b| > 1 {
            RowAtBelow(b[1..], y);
          }
        } else {
          assert RowAt(a, y) == RowAt(a[1..], y);
          assert RowAt(b, y) == RowAt(b[1..], y);
        }
      }
      RowsDetermined(a[1..], b[1..]);
      assert a == [a[0]] + a[1..];
      assert b == [b[0]] + b[1..];
    } else {
      RowAtFirst(a);
      RowAtFirst(b);
    }
  }

  /** The first row is the row of its own year. */
  lemma RowAtFirst(rows: seq<YearRow>)
    ensures rows != [] ==> RowAt(rows, rows[0].year) == Some(rows[0])
  {
  }

  /** One step of lines 181-184: the outer merge of the frame built so far
      with the next one, then sorted by year. */
  function OuterMerge(left: Frame, right: Frame): (f: Frame)
    requires WellFormed(left) && WellFormed(right)
    ensures WellFormed(f)
    ensures f.labels == left.labels + right.labels
    ensures forall y :: RowAt(f.rows, y).Some? <==> RowAt(left.rows, y).Some? || RowAt(right.rows, y).Some?
    ensures forall k: nat, y :: (CellAt(f.rows, k, y) ==
                                 if k < |left.labels| then CellAt(left.rows, k, y)
                                 else CellAt(right.rows, k - |left.labels|, y))
  {
    var wl := |left.labels|;
    var wr := |right.labels|;
    MergeWidth(left.rows, wl, right.rows, wr);
    MergeAscending(left.rows, wl, right.rows, wr);
    forall y
      ensures RowAt(MergeRows(left.rows, wl, right.rows, wr), y).Some? <==>
        RowAt(left.rows, y).Some? || RowAt(right.rows, y).Some?
      ensures forall k: nat :: (CellAt(MergeRows(left.rows, wl, right.rows, wr), k, y) ==
                                if k < wl then CellAt(left.rows, k, y) else CellAt(right.rows, k - wl, y))
    {
      MergeCells(left.rows, wl, right.rows, wr, y);
    }
    Frame(left.labels + right.labels, MergeRows(left.rows, wl, right.rows, wr))
  }

  /** A per-genre series ready to merge: its column name and its rows. */
  datatype Series = Series(column: string, points: seq<YearPoint>)

  function Labels(series: seq<Series>): (labels: seq<string>)
    ensures |labels| == |series|
    ensures forall k :: 0 <= k < |series| ==> labels[k] == series[k].column
  {
    seq(|series|, k requires 0 <= k < |series| => series[k].column)
  }

  /** Lines 181-184: the frames merged one after another. The result has one
      column per series, a row for every year of any series, ascending, and
      in column k the value series k holds for that year (missing when it
      has none). */
  method MergeSeries(series: seq<Series>) returns (merged: Frame)
    requires |series| >= 1
    requires forall k :: 0 <= k < |series| ==> Increasing(PointYears(series[k].points))
    ensures WellFormed(merged)
    ensures merged.labels == Labels(series)
    ensures forall y :: RowAt(merged.rows, y).Some? <==>
      exists k :: 0 <= k < |series| && y in PointYears(series[k].points)
    ensures forall k, y :: 0 <= k < |series| ==> CellAt(merged.rows, k, y) == SeriesLookup(series[k].points, y)
  {
    merged := SeriesFrame(series[0].column, series[0].points);
    assert Labels(series[..1]) == [series[0].column];
    for i := 1 to |series|
      invariant WellFormed(merged)
      invariant merged.labels == Labels(series[..i])
      invariant forall y :: RowAt(merged.rows, y).Some? <==>
        exists k :: 0 <= k < i && y in PointYears(series[k].points)
      invariant forall k, y :: 0 <= k < i ==> CellAt(merged.rows, k, y) == SeriesLookup(series[k].points, y)
    {
      var next := SeriesFrame(series[i].column, series[i].points);
      merged := OuterMerge(merged, next);
      assert Labels(series[..i + 1]) == Labels(series[..i]) + [series[i].column];
    }
    assert series[..|series|] == series;
  }

  // ---------------------------------------------------------------------
  // Column selection and the year filter

  /** The position of the first column with the given name. */
  function IndexOf(labels: seq<string>, name: string): (k: Option<nat>)
    ensures k.None? <==> name !in labels
    ensures k.Some? ==> k.value < |labels| && labels[k.value] == name
    decreases |labels|
  {
    if labels == [] then None
    else if labels[0] == name then Some(0)
    else match IndexOf(labels[1..], name)
      case None => None
      case Some(k) => Some(k + 1)
  }

  function PickCells(cells: seq<Option<Ratio>>, picks: seq<nat>): (out: seq<Option<Ratio>>)
    requires forall j :: 0 <= j < |picks| ==> picks[j] < |cells|
    ensures |out| == |picks|
    ensures forall j :: 0 <= j < |picks| ==> out[j] == cells[picks[j]]
  {
    seq(|picks|, j requires 0 <= j < |picks| => cells[picks[j]])
  }

  function PickRows(rows: seq<YearRow>, w: nat, picks: seq<nat>): (out: seq<YearRow>)
    requires Width(rows, w)
    requires forall j :: 0 <= j < |picks| ==> picks[j] < w
    ensures |out| == |rows|
    ensures forall i :: 0 <= i < |rows| ==> out[i] == YearRow(rows[i].year, PickCells(rows[i].cells, picks))
  {
    seq(|rows|, i requires 0 <= i < |rows| => YearRow(rows[i].year, PickCells(rows[i].cells, picks)))
  }

  lemma {:induction false} PickRowAt(rows: seq<YearRow>, w: nat, picks: seq<nat>, y: int)
    requires Width(rows, w)
    requires forall j :: 0 <= j < |picks| ==> picks[j] < w
    ensures RowAt(PickRows(rows, w, picks), y).Some? <==> RowAt(rows, y).Some?
    ensures forall j :: 0 <= j < |picks| ==> CellAt(PickRows(rows, w, picks), j, y) == CellAt(rows, picks[j], y)
    decreases |rows|
  {
    if rows != [] {
      assert PickRows(rows, w, picks)[1..] == PickRows(rows[1..], w, picks);
      PickRowAt(rows[1..], w, picks, y);
    }
  }

  /** frame[[names]] (lines 187 and 191): the named columns in the given
      order; a name that is not a column fails (a KeyError). */
  function Select(f: Frame, names: seq<string>): (r: Option<Frame>)
    requires WellFormed(f)
    ensures r.None? <==> exists j :: 0 <= j < |names| && names[j] !in f.labels
    ensures r.Some? ==> WellFormed(r.value) && r.value.labels == names
    ensures r.Some? ==> forall y :: RowAt(r.value.rows, y).Some? <==> RowAt(f.rows, y).Some?
    ensures r.Some? ==> forall j, y :: 0 <= j < |names| ==>
      CellAt(r.value.rows, j, y) == CellAt(f.rows, IndexOf(f.labels, names[j]).value, y)
  {
    if exists j :: 0 <= j < |names| && names[j] !in f.labels then None
    else
      var picks := seq(|names|, j requires 0 <= j < |names| => IndexOf(f.labels, names[j]).value);
      var rows := PickRows(f.rows, |f.labels|, picks);
      forall y
        ensures RowAt(rows, y).Some? <==> RowAt(f.rows, y).Some?
        ensures forall j :: 0 <= j < |picks| ==> CellAt(rows, j, y) == CellAt(f.rows, picks[j], y)
      {
        PickRowAt(f.rows, |f.labels|, picks, y);
      }
      Some(Frame(names, rows))
  }

  /** frame[frame['year'] >= lo] (line 192) on the rows. */
  function SinceRows(rows: seq<YearRow>, lo: int): (out: seq<YearRow>)
    ensures forall i :: 0 <= i < |out| ==> lo <= out[i].year
    ensures forall y :: RowAt(out, y) == if lo <= y then RowAt(rows, y) else None
    decreases |rows|
  {
    if rows == [] then []
    else
      var rest := SinceRows(rows[1..], lo);
      if lo <= rows[0].year then [rows[0]] + rest else rest
  }

  lemma {:induction false} SinceRowsShape(rows: seq<YearRow>, lo: int, w: nat)
    requires Ascending(rows) && Width(rows, w)
    ensures Ascending(SinceRows(rows, lo)) && Width(SinceRows(rows, lo), w)
    ensures forall i :: 0 <= i < |SinceRows(rows, lo)| ==> SinceRows(rows, lo)[i] in rows
    decreases |rows|
  {
    if rows != [] {
      SinceRowsShape(rows[1..], lo, w);
    }
  }

  /** The rows of the years from lo on, nothing else changed: a row exists
      for year y exactly when y >= lo and the frame has one, with the same
      cells. */
  function Since(f: Frame, lo: int): (r: Frame)
    requires WellFormed(f)
    ensures WellFormed(r) && r.labels == f.labels
    ensures forall i :: 0 <= i < |r.rows| ==> lo <= r.rows[i].year
    ensures forall y :: RowAt(r.rows, y) == if lo <= y then RowAt(f.rows, y) else None
    ensures forall k: nat, y :: CellAt(r.rows, k, y) == if lo <= y then CellAt(f.rows, k, y) else None
  {
    SinceRowsShape(f.rows, lo, |f.labels|);
    Frame(f.labels, SinceRows(f.rows, lo))
  }
}
