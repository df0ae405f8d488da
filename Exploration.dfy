/** The script from the movie lines to the frame it plots last, one step
    per statement of lines 22-192 that the model covers. */
module Exploration {
  import opened Wrappers
  import opened MovieLoad
  import opened GenreFlags
  import opened RatingJoin
  import opened GenreStats
  import opened YearTable

  /** What the script computes along the way. */
  datatype Summary = Summary(
    n: nat,                                // line 56
    avgRating: Option<Ratio>,              // line 57
    ratingByGenre: seq<Option<Ratio>>,     // lines 70-76
    percentages: seq<Option<real>>,        // lines 136-139
    genreList2: seq<string>,               // lines 141-143
    dfrmlist: seq<seq<YearPoint>>,         // lines 155-160
    mergedGenres: Frame,                   // lines 181-187
    mergedGenresSub: Frame)                // lines 191-192

  /** The five frames in the order of the merges at lines 181-184, under the
      names lines 163-176 give them by position. */
  function MergeOrder(dfrmlist: seq<seq<YearPoint>>): (series: seq<Series>)
    requires |dfrmlist| == 5
    ensures |series| == 5
    ensures Labels(series) == ["action", "drama", "comedy", "thriller", "sci-fi"]
    ensures series[0].points == dfrmlist[2] && series[1].points == dfrmlist[1]
    ensures series[2].points == dfrmlist[0] && series[3].points == dfrmlist[3] && series[4].points == dfrmlist[4]
  {
    [Series("action", dfrmlist[2]), Series("drama", dfrmlist[1]), Series("comedy", dfrmlist[0]),
     Series("thriller", dfrmlist[3]), Series("sci-fi", dfrmlist[4])]
  }

  /** The frame of line 187 for the five per-year frames of dfrmlist: well
      formed, a row for exactly the years of any of the five frames, and in
      its columns action, comedy, drama, thriller and sci-fi the values of
      dfrmlist[2], [0], [1], [3] and [4]. */
  ghost predicate MergedGenresOf(dfrmlist: seq<seq<YearPoint>>, f: Frame)
    requires |dfrmlist| == 5
  {
    && WellFormed(f)
    && f.labels == ["action", "comedy", "drama", "thriller", "sci-fi"]
    && (forall y :: RowAt(f.rows, y).Some? <==> exists k :: 0 <= k < 5 && y in PointYears(dfrmlist[k]))
    && (forall y :: CellAt(f.rows, 0, y) == SeriesLookup(dfrmlist[2], y))
    && (forall y :: CellAt(f.rows, 1, y) == SeriesLookup(dfrmlist[0], y))
    && (forall y :: CellAt(f.rows, 2, y) == SeriesLookup(dfrmlist[1], y))
    && (forall y :: CellAt(f.rows, 3, y) == SeriesLookup(dfrmlist[3], y))
    && (forall y :: CellAt(f.rows, 4, y) == SeriesLookup(dfrmlist[4], y))
  }

  /** The frame of line 192: well formed, a row for exactly the years of any
      of the five frames from 1950 on, and the action, comedy and drama
      columns of line 187 for those years. */
  ghost predicate MergedGenresSubOf(dfrmlist: seq<seq<YearPoint>>, f: Frame)
    requires |dfrmlist| == 5
  {
    && WellFormed(f)
    && f.labels == ["action", "comedy", "drama"]
    && (forall i :: 0 <= i < |f.rows| ==> 1950 <= f.rows[i].year)
    && (forall y :: RowAt(f.rows, y).Some? <==>
                    1950 <= y && exists k :: 0 <= k < 5 && y in PointYears(dfrmlist[k]))
    && (forall y :: CellAt(f.rows, 0, y) == if 1950 <= y then SeriesLookup(dfrmlist[2], y) else None)
    && (forall y :: CellAt(f.rows, 1, y) == if 1950 <= y then SeriesLookup(dfrmlist[0], y) else None)
    && (forall y :: CellAt(f.rows, 2, y) == if 1950 <= y then SeriesLookup(dfrmlist[1], y) else None)
  }

  /** Lines 181-192: the five frames merged, their columns put in the
      script's order, then the first three columns from 1950 on. By
      FrameDetermined, the two predicates fix the rows of both frames. */
  method FinalFrames(dfrmlist: seq<seq<YearPoint>>) returns (mergedGenres: Frame, mergedGenresSub: Frame)
    requires |dfrmlist| == 5
    requires forall k :: 0 <= k < 5 ==> Increasing(PointYears(dfrmlist[k]))
    ensures MergedGenresOf(dfrmlist, mergedGenres)
    ensures MergedGenresSubOf(dfrmlist, mergedGenresSub)
  {
    var merged := MergeSeries(MergeOrder(dfrmlist));
    GenreColumns(dfrmlist, merged);
    mergedGenres := Select(merged, ["action", "comedy", "drama", "thriller", "sci-fi"]).value;
    SubFrame(dfrmlist, mergedGenres);
    var sub := Select(mergedGenres, ["action", "comedy", "drama"]).value;
    mergedGenresSub := Since(sub, 1950);
  }

  /** Line 187 on the merge of the five frames in the order of lines
      181-184. */
  lemma GenreColumns(dfrmlist: seq<seq<YearPoint>>, merged: Frame)
    requires |dfrmlist| == 5
    requires WellFormed(merged)
    requires merged.labels == Labels(MergeOrder(dfrmlist))
    requires forall y :: RowAt(merged.rows, y).Some? <==>
      exists k :: 0 <= k < 5 && y in PointYears(MergeOrder(dfrmlist)[k].points)
    requires forall k, y :: 0 <= k < 5 ==> CellAt(merged.rows, k, y) == SeriesLookup(MergeOrder(dfrmlist)[k].points, y)
    ensures Select(merged, ["action", "comedy", "drama", "thriller", "sci-fi"]).Some?
    ensures MergedGenresOf(dfrmlist, Select(merged, ["action", "comedy", "drama", "thriller", "sci-fi"]).value)
  {
    var series := MergeOrder(dfrmlist);
    var names := ["action", "comedy", "drama", "thriller", "sci-fi"];
    MergedColumns(merged.labels, names);
    var f := Select(merged, names).value;
    forall y
      ensures RowAt(f.rows, y).Some? <==> exists k :: 0 <= k < 5 && y in PointYears(dfrmlist[k])
    {
      SomeFrame(series, dfrmlist, y);
    }
    forall y
      ensures CellAt(f.rows, 0, y) == SeriesLookup(dfrmlist[2], y)
      ensures CellAt(f.rows, 1, y) == SeriesLookup(dfrmlist[0], y)
      ensures CellAt(f.rows, 2, y) == SeriesLookup(dfrmlist[1], y)
      ensures CellAt(f.rows, 3, y) == SeriesLookup(dfrmlist[3], y)
      ensures CellAt(f.rows, 4, y) == SeriesLookup(dfrmlist[4], y)
    {
      assert CellAt(f.rows, 0, y) == CellAt(merged.rows, 0, y);
      assert CellAt(f.rows, 1, y) == CellAt(merged.rows, 2, y);
      assert CellAt(f.rows, 2, y) == CellAt(merged.rows, 1, y);
      assert CellAt(f.rows, 3, y) == CellAt(merged.rows, 3, y);
      assert CellAt(f.rows, 4, y) == CellAt(merged.rows, 4, y);
    }
  }

  /** Lines 191-192 on the frame of line 187. */
  lemma SubFrame(dfrmlist: seq<seq<YearPoint>>, mergedGenres: Frame)
    requires |dfrmlist| == 5
    requires MergedGenresOf(dfrmlist, mergedGenres)
    ensures Select(mergedGenres, ["action", "comedy", "drama"]).Some?
    ensures MergedGenresSubOf(dfrmlist, Since(Select(mergedGenres, ["action", "comedy", "drama"]).value, 1950))
  {
    var names := ["action", "comedy", "drama"];
    SubColumns(mergedGenres.labels, names);
    var sub := Select(mergedGenres, names).value;
    forall y
      ensures CellAt(sub.rows, 0, y) == SeriesLookup(dfrmlist[2], y)
      ensures CellAt(sub.rows, 1, y) == SeriesLookup(dfrmlist[0], y)
      ensures CellAt(sub.rows, 2, y) == SeriesLookup(dfrmlist[1], y)
    {
      assert CellAt(sub.rows, 0, y) == CellAt(mergedGenres.rows, 0, y);
      assert CellAt(sub.rows, 1, y) == CellAt(mergedGenres.rows, 1, y);
      assert CellAt(sub.rows, 2, y) == CellAt(mergedGenres.rows, 2, y);
    }
  }

  /** Only one frame meets MergedGenresOf: the model leaves no row of line
      187 free. */
  lemma MergedGenresUnique(dfrmlist: seq<seq<YearPoint>>, a: Frame, b: Frame)
    requires |dfrmlist| == 5
    requires MergedGenresOf(dfrmlist, a) && MergedGenresOf(dfrmlist, b)
    ensures a == b
  {
    forall k: nat, y | k < |a.labels|
      ensures CellAt(a.rows, k, y) == CellAt(b.rows, k, y)
    {
      assert k == 0 || k == 1 || k == 2 || k == 3 || k == 4;
    }
    FrameDetermined(a, b);
  }

  /** Only one frame meets MergedGenresSubOf: the model leaves no row of
      line 192 free. */
  lemma MergedGenresSubUnique(dfrmlist: seq<seq<YearPoint>>, a: Frame, b: Frame)
    requires |dfrmlist| == 5
    requires MergedGenresSubOf(dfrmlist, a) && MergedGenresSubOf(dfrmlist, b)
    ensures a == b
  {
    forall k: nat, y | k < |a.labels|
      ensures CellAt(a.rows, k, y) == CellAt(b.rows, k, y)
    {
      assert k == 0 || k == 1 || k == 2;
    }
    FrameDetermined(a, b);
  }

  /** A year has a row in some series of the merge order exactly when it has
      one in some frame of dfrmlist. */
  lemma SomeFrame(series: seq<Series>, dfrmlist: seq<seq<YearPoint>>, y: int)
    requires |dfrmlist| == 5 && series == MergeOrder(dfrmlist)
    ensures (exists k :: 0 <= k < |series| && y in PointYears(series[k].points)) <==>
      exists k :: 0 <= k < 5 && y in PointYears(dfrmlist[k])
  {
    var order := [2, 1, 0, 3, 4];
    assert forall k :: 0 <= k < 5 ==> series[k].points == dfrmlist[order[k]];
    assert forall k :: 0 <= k < 5 ==> dfrmlist[k] == series[order[k]].points;
  }

  /** The whole analysis. The load fails exactly when some movie line does
      not load, with that line's error; otherwise the summary holds, for the
      join of the flagged movie table with the ratings, its row count and
      mean, the 18 genre means and percentages, the five chosen genres, their
      per-year frames, and the two final frames with every row and cell
      fixed. */
  method Explore(lines: seq<string>, ratings: seq<Rating>) returns (r: Result<Summary, LoadError>)
    ensures r.Err? <==> LoadMovies(lines).Err?
    ensures r.Err? ==> r.error == LoadMovies(lines).error
    ensures r.Ok? ==> Describes(r.value, Join(AddedColumns(LoadMovies(lines).value), ratings))
  {
    var loaded := LoadMovies(lines);
    if loaded.Err? {
      return Err(loaded.error);
    }
    var table := AddGenreColumns(loaded.value);
    var movie := Join(table, ratings);
    var n := |movie|;
    var avgRating := OverallMean(movie);
    var genre, rating := RatingByGenre(movie);
    var percentages := Percentages(movie);
    var shares := Shares(genre, percentages);
    var genreList2 := TopGenres(shares);
    var dfrmlist := YearFrames(movie, genreList2);
    forall k | 0 <= k < 5
      ensures Increasing(PointYears(dfrmlist[k]))
    {
      GenreByYearMeans(movie, genreList2[k]);
    }
    var mergedGenres, mergedGenresSub := FinalFrames(dfrmlist);
    r := Ok(Summary(n, avgRating, rating, percentages, genreList2, dfrmlist, mergedGenres, mergedGenresSub));
  }

  /** The summary holds the script's figures for the merged table. */
  ghost predicate Describes(s: Summary, movie: seq<JoinedRow>)
  {
    && s.n == |movie|
    && s.avgRating == OverallMean(movie)
    && |s.ratingByGenre| == |GenreList|
    && (forall k :: 0 <= k < |GenreList| ==> s.ratingByGenre[k] == AvgRate(movie, GenreList[k]))
    && |s.percentages| == |GenreList|
    && (forall k :: 0 <= k < |GenreList| ==> s.percentages[k] == Percent(movie, GenreList[k]))
    && s.genreList2 == TopGenres(Shares(GenreList, s.percentages))
    && |s.genreList2| == 5
    && |s.dfrmlist| == 5
    && (forall k :: 0 <= k < 5 ==> s.dfrmlist[k] == GenreByYear(movie, s.genreList2[k]))
    && MergedGenresOf(s.dfrmlist, s.mergedGenres)
    && MergedGenresSubOf(s.dfrmlist, s.mergedGenresSub)
  }

  /** Where the names of line 187 sit among the merged columns. */
  lemma MergedColumns(labels: seq<string>, names: seq<string>)
    requires labels == ["action", "drama", "comedy", "thriller", "sci-fi"]
    requires names == ["action", "comedy", "drama", "thriller", "sci-fi"]
    ensures forall j :: 0 <= j < |names| ==> names[j] in labels
    ensures IndexOf(labels, names[0]) == Some(0) && IndexOf(labels, names[1]) == Some(2)
    ensures IndexOf(labels, names[2]) == Some(1) && IndexOf(labels, names[3]) == Some(3)
    ensures IndexOf(labels, names[4]) == Some(4)
  {
    assert labels[0][0] == 'a' && labels[1][0] == 'd' && labels[2][0] == 'c';
    assert labels[3][0] == 't' && labels[4][0] == 's';
    assert labels[1..] == ["drama", "comedy", "thriller", "sci-fi"];
    assert labels[2..] == ["comedy", "thriller", "sci-fi"];
    assert labels[3..] == ["thriller", "sci-fi"];
    assert labels[4..] == ["sci-fi"];
  }

  /** Where the names of line 191 sit among the columns of line 187. */
  lemma SubColumns(labels: seq<string>, names: seq<string>)
    requires labels == ["action", "comedy", "drama", "thriller", "sci-fi"]
    requires names == ["action", "comedy", "drama"]
    ensures forall j :: 0 <= j < |names| ==> names[j] in labels
    ensures IndexOf(labels, names[0]) == Some(0) && IndexOf(labels, names[1]) == Some(1)
    ensures IndexOf(labels, names[2]) == Some(2)
  {
    assert labels[0][0] == 'a' && labels[1][0] == 'c' && labels[2][0] == 'd';
    assert labels[1..] == ["comedy", "drama", "thriller", "sci-fi"];
    assert labels[2..] == ["drama", "thriller", "sci-fi"];
  }
}
