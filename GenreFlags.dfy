/** Lines 39-46 of the script: one 0/1 column per known genre, set by
    whether the genre's name occurs in the movie's genre text. */
module GenreFlags {
  import opened Wrappers
  import opened Text
  import opened MovieLoad

  /** The fixed, ordered list of the 18 genre names (lines 39-40). */
  const GenreList: seq<string> := [
    "Action", "Adventure", "Animation", "Children's", "Comedy", "Crime",
    "Documentary", "Drama", "Fantasy", "Film-Noir", "Horror", "Musical",
    "Mystery", "Romance", "Sci-Fi", "Thriller", "War", "Western"]

  /** A movie row once the genre columns are added: column name to cell,
      where a cell is 1, 0, or NaN (None) when the genre text is missing. */
  datatype MovieRow = MovieRow(movie: Movie, flags: map<string, Option<int>>)

  /** 1*movie['Genres'].str.contains(name) for one row. */
  function GenreFlag(genres: Option<string>, name: string): (f: Option<int>)
    ensures f.None? <==> genres.None?
    ensures f.Some? ==> (f.value == 1 <==> Contains(genres.value, name))
    ensures f.Some? ==> (f.value == 0 <==> !Contains(genres.value, name))
  {
    match genres
    case None => None
    case Some(text) => Some(if Occurs(name, text) then 1 else 0)
  }

  /** The cells of one row after the columns for names have been added in
      order; a later column of the same name replaces an earlier one. */
  function FlagColumns(genres: Option<string>, names: seq<string>): map<string, Option<int>>
  {
    if names == [] then map[]
    else FlagColumns(genres, names[..|names| - 1])[names[|names| - 1] := GenreFlag(genres, names[|names| - 1])]
  }

  /** The genre cells of a row: one column per genre name, holding that
      genre's flag. */
  function RowFlags(genres: Option<string>): (flags: map<string, Option<int>>)
    ensures forall g :: g in flags <==> g in GenreList
    ensures forall g :: g in flags ==> flags[g] == GenreFlag(genres, g)
  {
    FlagColumnsSpec(genres, GenreList);
    FlagColumns(genres, GenreList)
  }

  /** The columns added for a list of names: one column per name, each
      holding that name's flag. */
  lemma {:induction false} FlagColumnsSpec(genres: Option<string>, names: seq<string>)
    ensures forall g :: g in FlagColumns(genres, names) <==> g in names
    ensures forall g :: g in FlagColumns(genres, names) ==> FlagColumns(genres, names)[g] == GenreFlag(genres, g)
    decreases |names|
  {
    if names != [] {
      var init := names[..|names| - 1];
      FlagColumnsSpec(genres, init);
      assert forall g :: g in names <==> g in init || g == names[|names| - 1] by {
        assert names == init + [names[|names| - 1]];
      }
    }
  }

  /** The movie table after the genre columns of lines 44-46 are added, the
      value AddGenreColumns computes in place: each
      movie keeps its place, has a column for exactly the names of the genre
      list, and a column holds 1 when the genre text contains its name, 0 when
      it does not, and nothing when the movie has no genre text. */
  function AddedColumns(movies: seq<Movie>): (table: seq<MovieRow>)
    ensures |table| == |movies|
    ensures forall i :: 0 <= i < |movies| ==> table[i].movie == movies[i]
    ensures forall i, g :: 0 <= i < |movies| ==> (g in table[i].flags <==> g in GenreList)
    ensures forall i, g :: 0 <= i < |movies| && g in table[i].flags ==>
      (table[i].flags[g].None? <==> movies[i].genres.None?)
    ensures forall i, g :: 0 <= i < |movies| && g in table[i].flags ==>
      (table[i].flags[g] == Some(1) <==> movies[i].genres.Some? && Contains(movies[i].genres.value, g))
    ensures forall i, g :: 0 <= i < |movies| && g in table[i].flags ==>
      (table[i].flags[g] == Some(0) <==> movies[i].genres.Some? && !Contains(movies[i].genres.value, g))
  {
    seq(|movies|, i requires 0 <= i < |movies| => MovieRow(movies[i], RowFlags(movies[i].genres)))
  }

  /** AddedColumns is the only table that keeps the movies and gives each
      its row's flags. */
  lemma AddedColumnsRows(movies: seq<Movie>, table: seq<MovieRow>)
    requires |table| == |movies|
    requires forall i :: 0 <= i < |movies| ==> table[i].movie == movies[i]
    requires forall i :: 0 <= i < |movies| ==> table[i].flags == RowFlags(movies[i].genres)
    ensures table == AddedColumns(movies)
  {
    var added := AddedColumns(movies);
    forall i | 0 <= i < |movies|
      ensures table[i] == added[i]
    {
      assert added[i] == MovieRow(movies[i], RowFlags(movies[i].genres));
    }
  }

  /** The loop of lines 44-46: for each genre in turn, the whole column is
      computed and stored on every row. */
  method AddGenreColumns(movies: seq<Movie>) returns (table: seq<MovieRow>)
    ensures |table| == |movies|
    ensures forall i :: 0 <= i < |movies| ==> table[i].movie == movies[i]
    ensures forall i :: 0 <= i < |movies| ==> table[i].flags == RowFlags(movies[i].genres)
    ensures table == AddedColumns(movies)
  {
    table := seq(|movies|, i requires 0 <= i < |movies| => MovieRow(movies[i], map[]));
    var k := 0;
    while k < |GenreList|
      invariant 0 <= k <= |GenreList|
      invariant |table| == |movies|
      invariant forall i :: 0 <= i < |movies| ==> table[i] == MovieRow(movies[i], FlagColumns(movies[i].genres, GenreList[..k]))
    {
      var name := GenreList[k];
      table := seq(|table|, i requires 0 <= i < |table| =>
        table[i].(flags := table[i].flags[name := GenreFlag(table[i].movie.genres, name)]));
      assert GenreList[..k + 1][..k] == GenreList[..k];
      k := k + 1;
    }
    assert GenreList[..k] == GenreList;
    AddedColumnsRows(movies, table);
  }

  /** A name that occurs in the text is flagged 1. */
  lemma FlaggedWhenOccurs(text: string, name: string, at: nat)
    requires OccursAt(name, text, at)
    ensures GenreFlag(Some(text), name) == Some(1)
  {
  }

  /** A name with a character that the text lacks is flagged 0. */
  lemma NotFlaggedWhenCharMissing(text: string, name: string, j: nat)
    requires j < |name|
    requires forall i :: 0 <= i < |text| ==> text[i] != name[j]
    ensures GenreFlag(Some(text), name) == Some(0)
  {
    forall i | 0 <= i && i + |name| <= |text| ensures !OccursAt(name, text, i) {
      assert text[i..i + |name|][j] == text[i + j] != name[j];
    }
  }

  /** A name with two adjacent characters that never stand next to each other
      in the text is flagged 0. */
  lemma NotFlaggedWhenPairMissing(text: string, name: string, j: nat)
    requires j + 1 < |name|
    requires forall i :: 0 <= i < |text| - 1 ==> !(text[i] == name[j] && text[i + 1] == name[j + 1])
    ensures GenreFlag(Some(text), name) == Some(0)
  {
    forall i | 0 <= i && i + |name| <= |text| ensures !OccursAt(name, text, i) {
      var window := text[i..i + |name|];
      assert window[j] == text[i + j] && window[j + 1] == text[i + j + 1];
      assert !(window[j] == name[j] && window[j + 1] == name[j + 1]);
    }
  }

  /** The genre text of Toy Story sets exactly the Animation, Children's and
      Comedy columns: flags are independent, and several can be 1 at once. */
  lemma ToyStoryGenres(genres: string)
    requires genres == "Animation|Children's|Comedy"
    ensures forall k :: 0 <= k < |GenreList| ==>
      RowFlags(Some(genres))[GenreList[k]] == if 2 <= k <= 4 then Some(1) else Some(0)
  {
    ToyStoryFlagged(genres);
    ToyStoryLetters(genres);
    OtherGenresPart1(genres);
    OtherGenresPart2(genres);
    OtherGenresPart3(genres);
  }

  lemma ToyStoryFlagged(genres: string)
    requires genres == "Animation|Children's|Comedy"
    ensures GenreFlag(Some(genres), GenreList[2]) == Some(1)
    ensures GenreFlag(Some(genres), GenreList[3]) == Some(1)
    ensures GenreFlag(Some(genres), GenreList[4]) == Some(1)
  {
    assert GenreList[2] == "Animation" && GenreList[3] == "Children's" && GenreList[4] == "Comedy";
    assert genres[0..9] == "Animation";
    assert genres[10..20] == "Children's";
    assert genres[21..27] == "Comedy";
    FlaggedWhenOccurs(genres, GenreList[2], 0);
    FlaggedWhenOccurs(genres, GenreList[3], 10);
    FlaggedWhenOccurs(genres, GenreList[4], 21);
  }

  /** The characters of the Toy Story genre text that rule out the other
      fifteen genres. */
  lemma ToyStoryLetters(genres: string)
    requires genres == "Animation|Children's|Comedy"
    ensures forall i :: 0 <= i < |genres| ==> genres[i] != 'c' && genres[i] != 'v'
    ensures forall i :: 0 <= i < |genres| ==> genres[i] != 'D' && genres[i] != 'F'
    ensures forall i :: 0 <= i < |genres| ==> genres[i] != 'H' && genres[i] != 'M'
    ensures forall i :: 0 <= i < |genres| ==> genres[i] != 'R' && genres[i] != 'S'
    ensures forall i :: 0 <= i < |genres| ==> genres[i] != 'T' && genres[i] != 'W'
    ensures forall i :: 0 <= i < |genres| - 1 ==> !(genres[i] == 'C' && genres[i + 1] == 'r')
  {
  }

  lemma OtherGenresPart1(genres: string)
    requires forall i :: 0 <= i < |genres| ==> genres[i] != 'c' && genres[i] != 'v'
    requires forall i :: 0 <= i < |genres| ==> genres[i] != 'D' && genres[i] != 'F'
    requires forall i :: 0 <= i < |genres| ==> genres[i] != 'H' && genres[i] != 'M'
    requires forall i :: 0 <= i < |genres| ==> genres[i] != 'R' && genres[i] != 'S'
    requires forall i :: 0 <= i < |genres| ==> genres[i] != 'T' && genres[i] != 'W'
    requires forall i :: 0 <= i < |genres| - 1 ==> !(genres[i] == 'C' && genres[i + 1] == 'r')
    ensures GenreFlag(Some(genres), GenreList[0]) == Some(0)
    ensures GenreFlag(Some(genres), GenreList[1]) == Some(0)
    ensures GenreFlag(Some(genres), GenreList[5]) == Some(0)
    ensures GenreFlag(Some(genres), GenreList[6]) == Some(0)
    ensures GenreFlag(Some(genres), GenreList[7]) == Some(0)
  {
    assert GenreList[0][1] == 'c';
    NotFlaggedWhenCharMissing(genres, GenreList[0], 1);
    assert GenreList[1][2] == 'v';
    NotFlaggedWhenCharMissing(genres, GenreList[1], 2);
    assert GenreList[5][0] == 'C' && GenreList[5][1] == 'r';
    NotFlaggedWhenPairMissing(genres, GenreList[5], 0);
    assert GenreList[6][0] == 'D';
    NotFlaggedWhenCharMissing(genres, GenreList[6], 0);
    assert GenreList[7][0] == 'D';
    NotFlaggedWhenCharMissing(genres, GenreList[7], 0);
  }

  lemma OtherGenresPart2(genres: string)
    requires forall i :: 0 <= i < |genres| ==> genres[i] != 'c' && genres[i] != 'v'
    requires forall i :: 0 <= i < |genres| ==> genres[i] != 'D' && genres[i] != 'F'
    requires forall i :: 0 <= i < |genres| ==> genres[i] != 'H' && genres[i] != 'M'
    requires forall i :: 0 <= i < |genres| ==> genres[i] != 'R' && genres[i] != 'S'
    requires forall i :: 0 <= i < |genres| ==> genres[i] != 'T' && genres[i] != 'W'
    requires forall i :: 0 <= i < |genres| - 1 ==> !(genres[i] == 'C' && genres[i + 1] == 'r')
    ensures GenreFlag(Some(genres), GenreList[8]) == Some(0)
    ensures GenreFlag(Some(genres), GenreList[9]) == Some(0)
    ensures GenreFlag(Some(genres), GenreList[10]) == Some(0)
    ensures GenreFlag(Some(genres), GenreList[11]) == Some(0)
    ensures GenreFlag(Some(genres), GenreList[12]) == Some(0)
  {
    assert GenreList[8][0] == 'F';
    NotFlaggedWhenCharMissing(genres, GenreList[8], 0);
    assert GenreList[9][0] == 'F';
    NotFlaggedWhenCharMissing(genres, GenreList[9], 0);
    assert GenreList[10][0] == 'H';
    NotFlaggedWhenCharMissing(genres, GenreList[10], 0);
    assert GenreList[11][0] == 'M';
    NotFlaggedWhenCharMissing(genres, GenreList[11], 0);
    assert GenreList[12][0] == 'M';
    NotFlaggedWhenCharMissing(genres, GenreList[12], 0);
  }

  lemma OtherGenresPart3(genres: string)
    requires forall i :: 0 <= i < |genres| ==> genres[i] != 'c' && genres[i] != 'v'
    requires forall i :: 0 <= i < |genres| ==> genres[i] != 'D' && genres[i] != 'F'
    requires forall i :: 0 <= i < |genres| ==> genres[i] != 'H' && genres[i] != 'M'
    requires forall i :: 0 <= i < |genres| ==> genres[i] != 'R' && genres[i] != 'S'
    requires forall i :: 0 <= i < |genres| ==> genres[i] != 'T' && genres[i] != 'W'
    requires forall i :: 0 <= i < |genres| - 1 ==> !(genres[i] == 'C' && genres[i + 1] == 'r')
    ensures GenreFlag(Some(genres), GenreList[13]) == Some(0)
    ensures GenreFlag(Some(genres), GenreList[14]) == Some(0)
    ensures GenreFlag(Some(genres), GenreList[15]) == Some(0)
    ensures GenreFlag(Some(genres), GenreList[16]) == Some(0)
    ensures GenreFlag(Some(genres), GenreList[17]) == Some(0)
  {
    assert GenreList[13][0] == 'R';
    NotFlaggedWhenCharMissing(genres, GenreList[13], 0);
    assert GenreList[14][0] == 'S';
    NotFlaggedWhenCharMissing(genres, GenreList[14], 0);
    assert GenreList[15][0] == 'T';
    NotFlaggedWhenCharMissing(genres, GenreList[15], 0);
    assert GenreList[16][0] == 'W';
    NotFlaggedWhenCharMissing(genres, GenreList[16], 0);
    assert GenreList[17][0] == 'W';
    NotFlaggedWhenCharMissing(genres, GenreList[17], 0);
  }
}
