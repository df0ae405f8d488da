/** Line 54 of the script: the movie table merged with the ratings on
    'MovieID' with pandas' default inner join. */
module RatingJoin {
  import opened Wrappers
  import opened MovieLoad
  import opened GenreFlags

  /** One row of ratings.dat (read at line 51). */
  datatype Rating = Rating(userId: int, movieId: int, rating: int, timeStamp: int)

  /** One row of the merged table: a movie row with one of its ratings. */
  datatype JoinedRow = JoinedRow(movie: MovieRow, rating: Rating)

  /** The join key matches. A movie whose id is missing matches no rating. */
  predicate SameMovie(m: MovieRow, t: Rating)
  {
    m.movie.movieId == Some(t.movieId)
  }

  /** The merged rows of one movie: exactly its pairs with the ratings that
      carry its id. */
  function Partners(m: MovieRow, ratings: seq<Rating>): (rows: seq<JoinedRow>)
    ensures forall row :: row in rows <==> row.movie == m && row.rating in ratings && SameMovie(m, row.rating)
    decreases |ratings|
  {
    if ratings == [] then []
    else
      assert forall t :: t in ratings <==> t == ratings[0] || t in ratings[1..] by {
        assert ratings == [ratings[0]] + ratings[1..];
      }
      (if SameMovie(m, ratings[0]) then [JoinedRow(m, ratings[0])] else []) + Partners(m, ratings[1..])
  }

  /** pd.merge(movie, ratings, on='MovieID'): the merged rows are exactly the
      pairs of a movie row and a rating with equal ids. */
  function Join(movies: seq<MovieRow>, ratings: seq<Rating>): (rows: seq<JoinedRow>)
    ensures forall row :: row in rows <==>
      row.movie in movies && row.rating in ratings && SameMovie(row.movie, row.rating)
    decreases |movies|
  {
    if movies == [] then []
    else
      assert forall m :: m in movies <==> m == movies[0] || m in movies[1..] by {
        assert movies == [movies[0]] + movies[1..];
      }
      Partners(movies[0], ratings) + Join(movies[1..], ratings)
  }

  /** How many ratings carry the movie's id. */
  function RatingCount(m: MovieRow, ratings: seq<Rating>): nat
  {
    if ratings == [] then 0
    else (if SameMovie(m, ratings[0]) then 1 else 0) + RatingCount(m, ratings[1..])
  }

  /** How many movie rows carry the rating's movie id. */
  function MovieCount(movies: seq<MovieRow>, t: Rating): nat
  {
    if movies == [] then 0
    else (if SameMovie(movies[0], t) then 1 else 0) + MovieCount(movies[1..], t)
  }

  function SumRatingCounts(movies: seq<MovieRow>, ratings: seq<Rating>): nat
  {
    if movies == [] then 0 else RatingCount(movies[0], ratings) + SumRatingCounts(movies[1..], ratings)
  }

  function SumMovieCounts(movies: seq<MovieRow>, ratings: seq<Rating>): nat
  {
    if ratings == [] then 0 else MovieCount(movies, ratings[0]) + SumMovieCounts(movies, ratings[1..])
  }

  /** One row per (movie, rating) pair: a merged row occurs as many times as
      its movie row times its rating when the ids match, and never otherwise. */
  lemma {:induction false} JoinMultiplicity(movies: seq<MovieRow>, ratings: seq<Rating>, m: MovieRow, t: Rating)
    ensures multiset(Join(movies, ratings))[JoinedRow(m, t)] ==
      if SameMovie(m, t) then multiset(movies)[m] * multiset(ratings)[t] else 0
    decreases |movies|
  {
    if movies != [] {
      var row := JoinedRow(m, t);
      var c := if SameMovie(m, t) then multiset(ratings)[t] else 0;
      JoinMultiplicity(movies[1..], ratings, m, t);
      PartnerMultiplicity(movies[0], ratings, m, t);
      var later := multiset(movies[1..])[m];
      assert Join(movies, ratings) == Partners(movies[0], ratings) + Join(movies[1..], ratings);
      assert multiset(Join(movies, ratings))[row] ==
        multiset(Partners(movies[0], ratings))[row] + multiset(Join(movies[1..], ratings))[row];
      assert movies == [movies[0]] + movies[1..];
      if movies[0] == m {
        assert multiset(movies)[m] == 1 + later;
        OneMoreCopy(later, c);
      } else {
        assert multiset(movies)[m] == later;
      }
    }
  }

  /** Arithmetic step kept out of the proof above so the solver sees it alone. */
  lemma OneMoreCopy(n: int, c: int)
    ensures (1 + n) * c == c + n * c
  {
  }

  lemma {:induction false} PartnerMultiplicity(m': MovieRow, ratings: seq<Rating>, m: MovieRow, t: Rating)
    ensures multiset(Partners(m', ratings))[JoinedRow(m, t)] ==
      if m' == m && SameMovie(m, t) then multiset(ratings)[t] else 0
    decreases |ratings|
  {
    if ratings != [] {
      PartnerMultiplicity(m', ratings[1..], m, t);
      assert ratings == [ratings[0]] + ratings[1..];
      assert multiset(ratings)[t] == (if ratings[0] == t then 1 else 0) + multiset(ratings[1..])[t];
    }
  }

  /** The merged row count is the sum, over the movies, of each movie's
      number of ratings. */
  lemma {:induction false} JoinSizeByMovies(movies: seq<MovieRow>, ratings: seq<Rating>)
    ensures |Join(movies, ratings)| == SumRatingCounts(movies, ratings)
    decreases |movies|
  {
    if movies != [] {
      JoinSizeByMovies(movies[1..], ratings);
      PartnersSize(movies[0], ratings);
    }
  }

  lemma {:induction false} PartnersSize(m: MovieRow, ratings: seq<Rating>)
    ensures |Partners(m, ratings)| == RatingCount(m, ratings)
    decreases |ratings|
  {
    if ratings != [] {
      PartnersSize(m, ratings[1..]);
    }
  }

  /** The same count taken over the ratings: each rating contributes one row
      per movie that carries its id. A rating without a movie adds nothing. */
  lemma {:induction false} JoinSizeByRatings(movies: seq<MovieRow>, ratings: seq<Rating>)
    ensures |Join(movies, ratings)| == SumMovieCounts(movies, ratings)
    decreases |ratings|
  {
    if ratings == [] {
      JoinNoRatings(movies);
    } else {
      JoinSizeByRatings(movies, ratings[1..]);
      JoinConsRatingSize(movies, ratings[0], ratings[1..]);
      assert [ratings[0]] + ratings[1..] == ratings;
    }
  }

  lemma {:induction false} JoinNoRatings(movies: seq<MovieRow>)
    ensures Join(movies, []) == []
    decreases |movies|
  {
    if movies != [] {
      JoinNoRatings(movies[1..]);
    }
  }

  lemma {:induction false} JoinConsRatingSize(movies: seq<MovieRow>, t: Rating, ratings: seq<Rating>)
    ensures |Join(movies, [t] + ratings)| == MovieCount(movies, t) + |Join(movies, ratings)|
    decreases |movies|
  {
    if movies != [] {
      JoinConsRatingSize(movies[1..], t, ratings);
      assert ([t] + ratings)[1..] == ratings;
      assert ([t] + ratings)[0] == t;
    }
  }
}
