/** The matcher's records and the read-only queries it runs over the movie
    catalog and the cast/director roster. */
module Catalog {
  import opened Wrappers
  import opened Text
  import opened Numbers

  /** A movie of the internal catalog; year 0 stands for an unknown year. */
  datatype Movie = Movie(id: int, title: string, year: int)

  /** A roster entry; `role` is "cast" or "director" in well-formed data. */
  datatype ActorAndDirector = ActorAndDirector(movieId: int, name: string, role: string)

  /** A catalog row once split into columns: the id already read as a number,
      the title with its quotes removed, and the year column as written. */
  datatype MovieRow = MovieRow(id: int, title: string, yearColumn: string)

  const CastRole: string := "cast"
  const DirectorRole: string := "director"
  const NullYear: string := "NULL"

  /** The year column of a catalog row: "NULL" or nothing (after trimming)
      is the sentinel 0, anything else goes through Integer.parseInt, whose
      NumberFormatException is None. */
  function YearColumn(column: string): (year: Option<int>)
    ensures Trim(column) == NullYear || Trim(column) == [] ==> year == Some(0)
    ensures year.Some? ==> IsInt32(year.value)
  {
    var t := Trim(column);
    if t == NullYear || t == [] then Some(0) else ParseInt(t)
  }

  /** Any other column holding an integer, however padded with blanks,
      becomes that integer. */
  lemma {:induction false} YearColumnOfDecimal(y: int, before: string, after: string)
    requires IsInt32(y)
    requires forall i :: 0 <= i < |before| ==> IsBlank(before[i])
    requires forall i :: 0 <= i < |after| ==> IsBlank(after[i])
    ensures YearColumn(before + Decimal(y) + after) == Some(y)
  {
    var d := Decimal(y);
    TrimOfPadded(before, d, after);
    assert d[0] != NullYear[0];
    ParseIntDecimal(y);
  }

  /** Every other column parseInt reads: an optional sign, then digits,
      leading zeros included, however padded with blanks, whose signed value
      fits in an `int`. */
  lemma {:induction false} YearColumnOfDigits(sign: string, ds: string, before: string, after: string)
    requires sign == "" || sign == "+" || sign == "-"
    requires ds != [] && AllDigits(ds)
    requires IsInt32(if sign == "-" then -(DigitsValue(ds) as int) else DigitsValue(ds))
    requires forall i :: 0 <= i < |before| ==> IsBlank(before[i])
    requires forall i :: 0 <= i < |after| ==> IsBlank(after[i])
    ensures YearColumn(before + (sign + ds) + after) ==
      Some(if sign == "-" then -(DigitsValue(ds) as int) else DigitsValue(ds))
  {
    var t := sign + ds;
    assert t[0] == (if sign == "" then ds[0] else sign[0]) && t[|t| - 1] == ds[|ds| - 1];
    assert IsDigit(ds[0]) && IsDigit(ds[|ds| - 1]);
    TrimOfPadded(before, t, after);
    assert t[0] != NullYear[0];
    if sign == "-" {
      ParseIntNegative(ds);
    } else if sign == "+" {
      ParseIntPlus(ds);
    } else {
      assert t == ds;
      ParseIntUnsigned(ds);
    }
  }

  /** parseMovies: one movie per row, in row order; a year column that
      Integer.parseInt refuses aborts the whole load. */
  function ParseMovies(rows: seq<MovieRow>): (movies: Option<seq<Movie>>)
    ensures movies.Some? <==> forall i :: 0 <= i < |rows| ==> YearColumn(rows[i].yearColumn).Some?
    ensures movies.Some? ==> |movies.value| == |rows|
    ensures movies.Some? ==> forall i :: 0 <= i < |rows| ==>
      movies.value[i] == Movie(rows[i].id, rows[i].title, YearColumn(rows[i].yearColumn).value)
  {
    if rows == [] then Some([])
    else
      var year :- YearColumn(rows[0].yearColumn);
      var rest :- ParseMovies(rows[1..]);
      Some([Movie(rows[0].id, rows[0].title, year)] + rest)
  }

  predicate IsCastOf(e: ActorAndDirector, movieId: int) {
    e.movieId == movieId && e.role == CastRole
  }

  predicate IsDirectorOf(e: ActorAndDirector, movieId: int) {
    e.movieId == movieId && e.role == DirectorRole
  }

  /** getActorsForMovie: the names of the movie's "cast" entries, in roster order. */
  function ActorsForMovie(roster: seq<ActorAndDirector>, movieId: int): (names: seq<string>)
    ensures |names| <= |roster|
    ensures forall n :: n in names <==> exists e :: e in roster && IsCastOf(e, movieId) && e.name == n
  {
    if roster == [] then []
    else
      var rest := ActorsForMovie(roster[1..], movieId);
      assert forall e :: e in roster <==> e == roster[0] || e in roster[1..];
      if IsCastOf(roster[0], movieId) then [roster[0].name] + rest else rest
  }

  /** Filtering keeps roster order: the names found in two roster parts
      come out one part after the other. */
  lemma {:induction false} ActorsForMovieAppend(a: seq<ActorAndDirector>, b: seq<ActorAndDirector>, movieId: int)
    ensures ActorsForMovie(a + b, movieId) == ActorsForMovie(a, movieId) + ActorsForMovie(b, movieId)
  {
    if a == [] {
      assert a + b == b;
    } else {
      assert (a + b)[0] == a[0] && (a + b)[1..] == a[1..] + b;
      ActorsForMovieAppend(a[1..], b, movieId);
    }
  }

  /** The movie's first "director" entry in roster order (findFirst). */
  function FirstDirector(roster: seq<ActorAndDirector>, movieId: int): (r: Option<ActorAndDirector>)
    ensures r.None? <==> forall i :: 0 <= i < |roster| ==> !IsDirectorOf(roster[i], movieId)
    ensures r.Some? ==> exists i :: (0 <= i < |roster| && roster[i] == r.value && IsDirectorOf(roster[i], movieId)
      && forall j :: 0 <= j < i ==> !IsDirectorOf(roster[j], movieId))
  {
    if roster == [] then None
    else if IsDirectorOf(roster[0], movieId) then Some(roster[0])
    else
      var r := FirstDirector(roster[1..], movieId);
      assert forall i :: 1 <= i < |roster| ==> roster[i] == roster[1..][i - 1];
      r
  }

  /** getDirectorForMovie: the name of the movie's first "director" entry, or
      "" when it has none. */
  function DirectorForMovie(roster: seq<ActorAndDirector>, movieId: int): (name: string)
    ensures (forall i :: 0 <= i < |roster| ==> !IsDirectorOf(roster[i], movieId)) ==> name == ""
    ensures (exists i :: 0 <= i < |roster| && IsDirectorOf(roster[i], movieId)) ==>
      exists i :: (0 <= i < |roster| && IsDirectorOf(roster[i], movieId) && roster[i].name == name
        && forall j :: 0 <= j < i ==> !IsDirectorOf(roster[j], movieId))
  {
    match FirstDirector(roster, movieId)
    case None => ""
    case Some(e) => e.name
  }

  /** The filter of the public matching path: equal titles ignoring case and
      equal years, the sentinel 0 included. */
  predicate SameTitleAndYear(m: Movie, title: string, year: int) {
    EqualsIgnoreCase(m.title, title) && m.year == year
  }

  /** The first movie in catalog order passing that filter (findFirst). */
  function FirstByTitleAndYear(movies: seq<Movie>, title: string, year: int): (r: Option<Movie>)
    ensures r.None? <==> forall i :: 0 <= i < |movies| ==> !SameTitleAndYear(movies[i], title, year)
    ensures r.Some? ==> exists i :: (0 <= i < |movies| && movies[i] == r.value && SameTitleAndYear(movies[i], title, year)
      && forall j :: 0 <= j < i ==> !SameTitleAndYear(movies[j], title, year))
  {
    if movies == [] then None
    else if SameTitleAndYear(movies[0], title, year) then Some(movies[0])
    else
      var r := FirstByTitleAndYear(movies[1..], title, year);
      assert forall i :: 1 <= i < |movies| ==> movies[i] == movies[1..][i - 1];
      r
  }

  /** A one-movie catalog: found exactly when the movie passes the filter. */
  lemma {:induction false} FirstOfSingleMovie(m: Movie, title: string, year: int)
    ensures FirstByTitleAndYear([m], title, year) == if SameTitleAndYear(m, title, year) then Some(m) else None
  {
  }

  /** The key of the normalised matching path: equal normalised titles and
      equal years. */
  predicate SameKey(m: Movie, title: string, year: int) {
    NormalizeTitle(m.title) == NormalizeTitle(title) && m.year == year
  }

  /** The potential matches of findMatchingMovie: the catalog movies with
      the key, in catalog order. */
  function Candidates(movies: seq<Movie>, title: string, year: int): (c: seq<Movie>)
    ensures |c| <= |movies|
    ensures forall m :: m in c <==> m in movies && SameKey(m, title, year)
  {
    if movies == [] then []
    else
      var rest := Candidates(movies[1..], title, year);
      assert forall m :: m in movies <==> m == movies[0] || m in movies[1..];
      if SameKey(movies[0], title, year) then [movies[0]] + rest else rest
  }

  /** Candidates keep catalog order. */
  lemma {:induction false} CandidatesAppend(a: seq<Movie>, b: seq<Movie>, title: string, year: int)
    ensures Candidates(a + b, title, year) == Candidates(a, title, year) + Candidates(b, title, year)
  {
    if a == [] {
      assert a + b == b;
    } else {
      assert (a + b)[0] == a[0] && (a + b)[1..] == a[1..] + b;
      CandidatesAppend(a[1..], b, title, year);
    }
  }

  /** anyMatch(signal::contains): some name occurs inside the signal. */
  function AnyContained(names: seq<string>, signal: string): (r: bool)
    ensures r <==> exists k :: 0 <= k < |names| && Contains(signal, names[k])
  {
    if names == [] then false
    else
      assert forall k :: 1 <= k < |names| ==> names[k] == names[1..][k - 1];
      Contains(signal, names[0]) || AnyContained(names[1..], signal)
  }

  /** The test of refineMatchWithActorsAndDirector: one of the movie's cast
      names occurs inside the signal, or its director equals the signal. A
      movie without a director has director "", which equals only the empty
      signal. */
  predicate Qualifies(roster: seq<ActorAndDirector>, signal: string, m: Movie) {
    AnyContained(ActorsForMovie(roster, m.id), signal) || DirectorForMovie(roster, m.id) == signal
  }

  /** What refineMatchWithActorsAndDirector returns: the first candidate, in
      list order, that qualifies, or None. */
  function FirstQualifying(roster: seq<ActorAndDirector>, signal: string, candidates: seq<Movie>): (r: Option<Movie>)
    ensures r.None? <==> forall i :: 0 <= i < |candidates| ==> !Qualifies(roster, signal, candidates[i])
    ensures r.Some? ==> exists i :: (0 <= i < |candidates| && candidates[i] == r.value && Qualifies(roster, signal, candidates[i])
      && forall j :: 0 <= j < i ==> !Qualifies(roster, signal, candidates[j]))
  {
    if candidates == [] then None
    else if Qualifies(roster, signal, candidates[0]) then Some(candidates[0])
    else
      var r := FirstQualifying(roster, signal, candidates[1..]);
      assert forall i :: 1 <= i < |candidates| ==> candidates[i] == candidates[1..][i - 1];
      r
  }

  /** findMatchingMovie: no candidate gives None, a single candidate is the
      answer, and several are refined with the external title itself as the
      cast/director signal. */
  function FindMatchingMovie(movies: seq<Movie>, roster: seq<ActorAndDirector>, externalTitle: string, externalYear: int): (r: Option<Movie>)
    ensures r.Some? ==> r.value in movies && SameKey(r.value, externalTitle, externalYear)
    ensures (forall m :: m in movies ==> !SameKey(m, externalTitle, externalYear)) ==> r.None?
    ensures |Candidates(movies, externalTitle, externalYear)| == 1 ==> r == Some(Candidates(movies, externalTitle, externalYear)[0])
    ensures |Candidates(movies, externalTitle, externalYear)| > 1 ==>
      (r.None? <==> forall m :: m in Candidates(movies, externalTitle, externalYear) ==> !Qualifies(roster, externalTitle, m))
    ensures r.Some? && |Candidates(movies, externalTitle, externalYear)| > 1 ==> Qualifies(roster, externalTitle, r.value)
    ensures |Candidates(movies, externalTitle, externalYear)| > 1 ==>
      r == FirstQualifying(roster, externalTitle, Candidates(movies, externalTitle, externalYear))
  {
    var potentialMatches := Candidates(movies, externalTitle, externalYear);
    if |potentialMatches| > 1 then FirstQualifying(roster, externalTitle, potentialMatches)
    else if potentialMatches == [] then None
    else Some(potentialMatches[0])
  }

  /** Two releases sharing title and year, told apart by cast. */
  function DuneRoster(): seq<ActorAndDirector> {
    [ ActorAndDirector(1, "A", DirectorRole), ActorAndDirector(1, "X", CastRole), ActorAndDirector(1, "Y", CastRole),
      ActorAndDirector(2, "B", DirectorRole), ActorAndDirector(2, "Z", CastRole) ]
  }

  lemma {:induction false} DuneCasts()
    ensures ActorsForMovie(DuneRoster(), 1) == ["X", "Y"]
    ensures ActorsForMovie(DuneRoster(), 2) == ["Z"]
  {
  }

  /** A signal naming a cast member of the first release picks that release. */
  lemma {:induction false} CastDisambiguationExample()
    ensures FirstQualifying(DuneRoster(), "X and others", [Movie(1, "Dune", 2021), Movie(2, "Dune", 2021)])
      == Some(Movie(1, "Dune", 2021))
  {
    DuneCasts();
    assert Contains("X and others", "X");
  }

  lemma {:induction false} DuneDirectors()
    ensures DirectorForMovie(DuneRoster(), 1) == "A"
    ensures DirectorForMovie(DuneRoster(), 2) == "B"
  {
  }

  lemma {:induction false} CastNotInTitle()
    ensures !AnyContained(["X", "Y"], "Dune") && !AnyContained(["Z"], "Dune")
  {
    ContainsChar("Dune", 'X');
    ContainsChar("Dune", 'Y');
    ContainsChar("Dune", 'Z');
  }

  /** findMatchingMovie refines with the external title as its signal, so
      two releases whose cast and director do not appear in the title stay
      unresolved even though a cast list would tell them apart. */
  lemma {:induction false} TitleAsSignalExample()
    ensures FindMatchingMovie([Movie(1, "Dune", 2021), Movie(2, "Dune", 2021)], DuneRoster(), "Dune", 2021) == None
  {
    var movies := [Movie(1, "Dune", 2021), Movie(2, "Dune", 2021)];
    assert Candidates(movies, "Dune", 2021) == movies;
    DuneCasts();
    DuneDirectors();
    CastNotInTitle();
    assert !Qualifies(DuneRoster(), "Dune", movies[0]);
    assert !Qualifies(DuneRoster(), "Dune", movies[1]);
  }
}
