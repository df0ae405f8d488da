/** Lines 22-37 of the script: each line of the movie file becomes one row of
    the movie table, with its id, its title with and without the year, its
    genre text and the year read from the title. */
module MovieLoad {
  import opened Wrappers
  import opened Text

  /** One row of the movie table before the genre columns are added. Every
      field may be missing (NaN) when the line has too few fields. */
  datatype Movie = Movie(
    movieId: Option<int>,      // 'MovieID': field 0 read as a number
    names: Option<string>,     // 'Names': field 1 without its last six characters
    origNames: Option<string>, // 'Orig Names': field 1 as it stands
    genres: Option<string>,    // 'Genres': field 2
    year: Option<int>)         // 'Year': the number in the last six characters of field 1

  /** The two columns that are converted with pd.to_numeric, in the order the
      script converts them: the years (line 28) before the ids (line 29). */
  datatype NumericColumn = YearColumn | IdColumn

  /** Why the load stops: the first position of a column whose text is not a
      number, and that text. */
  datatype LoadError =
    | YearNotNumeric(position: nat, text: string)
    | IdNotNumeric(position: nat, text: string)

  /** Series.str[k] on a split line: the k-th field, missing when there is none. */
  function Field(fields: seq<string>, k: nat): (r: Option<string>)
    ensures r.Some? <==> k < |fields|
    ensures r.Some? ==> r.value == fields[k]
  {
    if k < |fields| then Some(fields[k]) else None
  }

  /** Field 0, the id text: the line up to its first delimiter, or the
      whole line when it has none. */
  function IdText(line: string): (id: string)
    ensures |id| <= |line| && line[..|id|] == id
    ensures |Split(line)| == 1 ==> id == line
    ensures |Split(line)| > 1 ==> CleanField(id) && |id| + 2 <= |line| && line[|id|..|id| + 2] == Sep
  {
    var fields := Split(line);
    FirstFieldPrefix(fields);
    SplitFieldsClean(line);
    fields[0]
  }

  /** Field 1, the title with its year: present exactly when the line has a
      delimiter, and then the text between the first delimiter and the next
      one (or the end of the line). */
  function OrigName(line: string): (t: Option<string>)
    ensures t.Some? <==> |Split(line)| >= 2
    ensures t.Some? ==> !HasSep(t.value)
    ensures t.Some? ==> var p := IdText(line) + Sep + t.value; |p| <= |line| && line[..|p|] == p
    ensures t.Some? ==> var p := IdText(line) + Sep + t.value;
      |p| == |line| || (CleanField(t.value) && |p| + 2 <= |line| && line[|p|..|p| + 2] == Sep)
    ensures t.Some? ==> t.value == Split(line)[1]
  {
    var fields := Split(line);
    SplitFieldsClean(line);
    if |fields| >= 2 then
      FirstFieldPrefix(fields[1..]);
      assert line == fields[0] + Sep + JoinFields(fields[1..]);
      Field(fields, 1)
    else Field(fields, 1)
  }

  /** Lines 25-27: the last six characters of the title, stripped of '(' and
      then of ')'. Present exactly when the title is: the last six characters
      are runs of '(' around a text that is runs of ')' around the year text. */
  function YearText(line: string): (y: Option<string>)
    ensures y.Some? <==> OrigName(line).Some?
    ensures y.Some? ==> Contains(LastChars(OrigName(line).value, 6), y.value)
    ensures y.Some? ==> y.value == [] || (y.value[0] != ')' && y.value[|y.value| - 1] != ')')
    ensures y.Some? ==> exists once :: StripsTo(LastChars(OrigName(line).value, 6), '(', once) && StripsTo(once, ')', y.value)
  {
    match OrigName(line)
    case None => None
    case Some(t) =>
      var once := Strip(LastChars(t, 6), '(');
      ContainsTrans(LastChars(t, 6), once, Strip(once, ')'));
      Some(Strip(once, ')'))
  }

  /** The cell that pd.to_numeric converts in the given column for this line. */
  function ColumnCell(line: string, column: NumericColumn): Option<string>
  {
    match column
    case YearColumn => YearText(line)
    case IdColumn => Some(IdText(line))
  }

  predicate CellIsNumeric(line: string, column: NumericColumn)
  {
    !ToNumeric(ColumnCell(line, column)).NotNumeric?
  }

  /** A line whose year and id both convert. */
  predicate Loads(line: string)
  {
    CellIsNumeric(line, YearColumn) && CellIsNumeric(line, IdColumn)
  }

  function NumberOrMissing(n: Numeric): (r: Option<int>)
    requires !n.NotNumeric?
    ensures r.Some? <==> n.Number?
    ensures r.Some? ==> r.value == n.value
  {
    if n.Number? then Some(n.value) else None
  }

  /** The row built from one line (lines 33-37): the id and year read as
      numbers, the title, the title without its last six characters, and the
      genre text. */
  function MovieOf(line: string): (m: Movie)
    requires Loads(line)
    ensures m.origNames.Some? <==> |Split(line)| >= 2
    ensures m.names.Some? <==> m.origNames.Some?
    ensures m.names.Some? ==> m.names.value + LastChars(m.origNames.value, 6) == m.origNames.value
    ensures m.year.Some? ==> m.origNames.Some?
    ensures m.origNames == OrigName(line)
    ensures m.genres == if |Split(line)| >= 3 then Some(Split(line)[2]) else None
    ensures m.movieId.Some? <==> ToNumeric(Some(IdText(line))).Number?
    ensures m.movieId.Some? ==> ToNumeric(Some(IdText(line))) == Number(m.movieId.value)
    ensures m.year.Some? <==> ToNumeric(YearText(line)).Number?
    ensures m.year.Some? ==> ToNumeric(YearText(line)) == Number(m.year.value)
  {
    var fields := Split(line);
    Movie(
      NumberOrMissing(ToNumeric(Some(IdText(line)))),
      match Field(fields, 1) case None => None case Some(t) => Some(DropLastChars(t, 6)),
      Field(fields, 1),
      Field(fields, 2),
      NumberOrMissing(ToNumeric(YearText(line))))
  }

  /** pd.to_numeric applied to a whole column. */
  function ConvertColumn(lines: seq<string>, column: NumericColumn): (cells: seq<Numeric>)
    ensures |cells| == |lines|
    ensures forall i :: 0 <= i < |lines| ==> (cells[i].NotNumeric? <==> !CellIsNumeric(lines[i], column))
  {
    seq(|lines|, i requires 0 <= i < |lines| => ToNumeric(ColumnCell(lines[i], column)))
  }

  /** The first position of a converted column that is not a number, if any. */
  function FirstNotNumeric(cells: seq<Numeric>): (p: Option<nat>)
    ensures p.Some? ==> p.value < |cells| && cells[p.value].NotNumeric?
    ensures p.Some? ==> forall j :: 0 <= j < p.value ==> !cells[j].NotNumeric?
    ensures p.None? ==> forall j :: 0 <= j < |cells| ==> !cells[j].NotNumeric?
  {
    if cells == [] then None
    else if cells[0].NotNumeric? then Some(0)
    else
      match FirstNotNumeric(cells[1..])
      case None => None
      case Some(q) => Some(q + 1)
  }

  /** Lines 22-37 over the lines of the movie file: one row per line, or the
      error pd.to_numeric raises, the year column being converted first. */
  function LoadMovies(lines: seq<string>): (r: Result<seq<Movie>, LoadError>)
    ensures r.Ok? <==> forall i :: 0 <= i < |lines| ==> Loads(lines[i])
    ensures r.Ok? ==> |r.value| == |lines| && forall i :: 0 <= i < |lines| ==> r.value[i] == MovieOf(lines[i])
    ensures r.Err? && r.error.YearNotNumeric? ==>
      var p := r.error.position;
      && p < |lines|
      && !CellIsNumeric(lines[p], YearColumn)
      && Some(r.error.text) == YearText(lines[p])
      && forall j :: 0 <= j < p ==> CellIsNumeric(lines[j], YearColumn)
    ensures r.Err? && r.error.IdNotNumeric? ==>
      var p := r.error.position;
      && p < |lines|
      && !CellIsNumeric(lines[p], IdColumn)
      && r.error.text == IdText(lines[p])
      && (forall j :: 0 <= j < |lines| ==> CellIsNumeric(lines[j], YearColumn))
      && forall j :: 0 <= j < p ==> CellIsNumeric(lines[j], IdColumn)
  {
    match FirstNotNumeric(ConvertColumn(lines, YearColumn))
    case Some(p) => Err(YearNotNumeric(p, YearText(lines[p]).value))
    case None =>
      match FirstNotNumeric(ConvertColumn(lines, IdColumn))
      case Some(p) => Err(IdNotNumeric(p, IdText(lines[p])))
      case None => Ok(seq(|lines|, i requires 0 <= i < |lines| => MovieOf(lines[i])))
  }

  /** A line "id::title::genres" whose title and genre text are clean fields
      loads into exactly those fields, with the title split into name and year
      suffix. */
  lemma ParseLine(id: nat, title: string, genres: string)
    requires CleanField(title) && !HasSep(genres)
    ensures var line := NatText(id) + Sep + title + Sep + genres;
      && Split(line) == [NatText(id), title, genres]
      && OrigName(line) == Some(title)
      && ToNumeric(Some(IdText(line))) == Number(id)
  {
    var line := NatText(id) + Sep + title + Sep + genres;
    assert line == NatText(id) + Sep + (title + Sep + genres);
    NatTextClean(id);
    SplitAfterField(NatText(id), title + Sep + genres);
    SplitAfterField(title, genres);
    SplitNoSep(genres);
    NumberRoundTrip(id);
  }

  /** The text of a number is a clean field. */
  lemma NatTextClean(n: nat)
    ensures CleanField(NatText(n))
  {
    var t := NatText(n);
    assert forall i :: 0 <= i < |t| ==> IsDigit(t[i]);
    assert !HasSep(t) by {
      forall i | 0 <= i < |t| - 1 ensures !SepAt(t, i) {
        assert IsDigit(t[i]);
      }
    }
  }

  /** Stripping '(' and then ')' from "(dddd)" leaves the digits. */
  lemma StripParens(digits: string)
    requires |digits| == 4 && AllDigits(digits)
    ensures Strip(Strip("(" + digits + ")", '('), ')') == digits
  {
    var once := digits + ")";
    assert IsDigit(once[0]);
    assert "(" + digits + ")" == Repeat('(', 1) + once + Repeat('(', 0);
    StripRuns('(', 1, once, 0);
    assert IsDigit(digits[0]) && IsDigit(digits[3]);
    assert once == Repeat(')', 0) + digits + Repeat(')', 1);
    StripRuns(')', 0, digits, 1);
  }

  /** The last six characters of "<prefix>(dddd)" are "(dddd)". */
  lemma TitleSuffix(prefix: string, digits: string)
    requires |digits| == 4
    ensures LastChars(prefix + "(" + digits + ")", 6) == "(" + digits + ")"
    ensures DropLastChars(prefix + "(" + digits + ")", 6) == prefix
  {
    var suffix := "(" + digits + ")";
    var title := prefix + "(" + digits + ")";
    assert title == prefix + suffix;
    assert |suffix| == 6;
    assert title[|title| - 6..] == suffix;
    assert title[..|title| - 6] == prefix;
  }

  lemma DigitsNumber(digits: string)
    requires |digits| >= 1 && AllDigits(digits)
    ensures ToNumeric(Some(digits)) == Number(DigitsValue(digits))
  {
    assert IsDigit(digits[0]);
  }

  /** A title that ends in a parenthesised four-digit year: the year is that
      number and the name is the rest of the title. */
  lemma TitleYear(prefix: string, digits: string)
    requires |digits| == 4 && AllDigits(digits)
    ensures var title := prefix + "(" + digits + ")";
      && LastChars(title, 6) == "(" + digits + ")"
      && DropLastChars(title, 6) == prefix
      && ToNumeric(Some(Strip(Strip(LastChars(title, 6), '('), ')'))) == Number(DigitsValue(digits))
  {
    TitleSuffix(prefix, digits);
    StripParens(digits);
    DigitsNumber(digits);
  }

  /** Loading a well-formed line "id::<name>(<yyyy>)::genres". */
  lemma LoadWellFormedLine(id: nat, name: string, digits: string, genres: string)
    requires |digits| == 4 && AllDigits(digits)
    requires CleanField(name + "(" + digits + ")") && !HasSep(genres)
    ensures var line := NatText(id) + Sep + (name + "(" + digits + ")") + Sep + genres;
      && Loads(line)
      && MovieOf(line) == Movie(Some(id), Some(name), Some(name + "(" + digits + ")"), Some(genres), Some(DigitsValue(digits)))
  {
    var title := name + "(" + digits + ")";
    var line := NatText(id) + Sep + title + Sep + genres;
    ParseLine(id, title, genres);
    TitleYear(name, digits);
    assert YearText(line) == Some(Strip(Strip(LastChars(title, 6), '('), ')'));
    assert ToNumeric(YearText(line)) == Number(DigitsValue(digits));
    assert Loads(line) by {
      assert CellIsNumeric(line, YearColumn);
      assert CellIsNumeric(line, IdColumn);
    }
    MovieOfFields(line, NatText(id), title, genres);
  }

  /** The row of a loading line with three fields, read off those fields. */
  lemma MovieOfFields(line: string, id: string, title: string, genres: string)
    requires Loads(line) && Split(line) == [id, title, genres]
    ensures MovieOf(line) == Movie(NumberOrMissing(ToNumeric(Some(IdText(line)))), Some(DropLastChars(title, 6)),
                                   Some(title), Some(genres), NumberOrMissing(ToNumeric(YearText(line))))
  {
  }

  /** A title whose last six characters hold a character that is no digit,
      sign or parenthesis (a title without a year, say) stops the whole load
      at that line or an earlier one: there is no default year. */
  lemma YearlessTitleFails(lines: seq<string>, i: nat, id: nat, title: string, genres: string, x: char)
    requires i < |lines|
    requires lines[i] == NatText(id) + Sep + title + Sep + genres
    requires CleanField(title) && !HasSep(genres)
    requires x in LastChars(title, 6) && !IsDigit(x) && x !in "+-()"
    ensures LoadMovies(lines).Err?
    ensures LoadMovies(lines).error.YearNotNumeric? && LoadMovies(lines).error.position <= i
  {
    YearlessLine(lines[i], id, title, genres, x);
  }

  /** The line of such a title has a year text that is not a number. */
  lemma YearlessLine(line: string, id: nat, title: string, genres: string, x: char)
    requires line == NatText(id) + Sep + title + Sep + genres
    requires CleanField(title) && !HasSep(genres)
    requires x in LastChars(title, 6) && !IsDigit(x) && x !in "+-()"
    ensures !CellIsNumeric(line, YearColumn)
  {
    ParseLine(id, title, genres);
    var once := Strip(LastChars(title, 6), '(');
    StripKeeps(LastChars(title, 6), '(', x);
    StripKeeps(once, ')', x);
    NotIntText(Strip(once, ')'), x);
    assert YearText(line) == Some(Strip(once, ')'));
  }

  /** The first line of the MovieLens movie file. */
  lemma ToyStory(line: string)
    requires line == "1::Toy Story (1995)::Animation|Children's|Comedy"
    ensures Loads(line)
    ensures MovieOf(line) == Movie(Some(1), Some("Toy Story "), Some("Toy Story (1995)"), Some("Animation|Children's|Comedy"), Some(1995))
  {
    var name, digits, genres := "Toy Story ", "1995", "Animation|Children's|Comedy";
    assert name + "(" + digits + ")" == "Toy Story (1995)";
    assert line == NatText(1) + Sep + (name + "(" + digits + ")") + Sep + genres by {
      assert NatText(1) == "1";
      assert Sep == "::";
      ToyStoryLine();
    }
    ToyStoryParts(line, name, digits, genres);
  }

  /** The Toy Story line assembled from its parts, kept symbolic so that the
      verifier reasons about the parts rather than about the literal. */
  lemma ToyStoryParts(line: string, name: string, digits: string, genres: string)
    requires name == "Toy Story " && digits == "1995" && genres == "Animation|Children's|Comedy"
    requires line == NatText(1) + Sep + (name + "(" + digits + ")") + Sep + genres
    ensures Loads(line)
    ensures MovieOf(line) == Movie(Some(1), Some(name), Some(name + "(" + digits + ")"), Some(genres), Some(1995))
  {
    ToyStoryFields();
    ToyStoryYear();
    LoadWellFormedLine(1, name, digits, genres);
  }

  lemma ToyStoryLine()
    ensures "1" + "::" + "Toy Story (1995)" + "::" + "Animation|Children's|Comedy"
      == "1::Toy Story (1995)::Animation|Children's|Comedy"
  {
    var head := "1" + "::" + "Toy Story (1995)";
    var tail := "::" + "Animation|Children's|Comedy";
    assert head == "1::Toy Story (1995)";
    assert tail == "::Animation|Children's|Comedy";
    Concat(head, tail, "1::Toy Story (1995)::Animation|Children's|Comedy");
  }

  /** Two halves of a literal, checked one position at a time. */
  lemma Concat(a: string, b: string, ab: string)
    requires a == "1::Toy Story (1995)" && b == "::Animation|Children's|Comedy"
    requires ab == "1::Toy Story (1995)::Animation|Children's|Comedy"
    ensures a + b == ab
  {
    assert ab[..|a|] == a;
    assert ab[|a|..] == b;
    assert ab == ab[..|a|] + ab[|a|..];
  }

  lemma ToyStoryFields()
    ensures CleanField("Toy Story " + "(" + "1995" + ")")
    ensures !HasSep("Animation|Children's|Comedy")
  {
    var title := "Toy Story (1995)";
    var genres := "Animation|Children's|Comedy";
    assert "Toy Story " + "(" + "1995" + ")" == title;
    forall i | 0 <= i < |title| ensures title[i] != ':' {}
    forall i | 0 <= i < |genres| ensures genres[i] != ':' {}
    NoColonNoSep(title);
    NoColonNoSep(genres);
  }

  lemma ToyStoryYear()
    ensures AllDigits("1995") && DigitsValue("1995") == 1995
  {
    assert AllDigits("1995");
    assert "1995"[..3] == "199" && "199"[..2] == "19" && "19"[..1] == "1" && "1"[..0] == "";
  }
}
