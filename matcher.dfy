/** MatcherImpl: holds the parsed catalog and roster, and maps external rows
    to internal movie ids. */
module Matching {
  import opened Wrappers
  import opened Lists
  import opened Text
  import opened Dates
  import opened Catalog

  /** The three columns of an external row that the matcher reads (MediaId,
      Title, OriginalReleaseDate), as split, before trimming. */
  datatype ExternalRow = ExternalRow(externalId: string, title: string, releaseDate: string)

  /** One result of `match`: an internal movie id and the external id. */
  datatype IdMapping = IdMapping(internalId: int, externalId: string)

  /** The mapping one external row contributes, if any: the first catalog
      movie, in catalog order, whose title equals the trimmed external title
      ignoring case and whose year equals the year extracted from the trimmed
      date. The sentinel year 0 is compared like any other year. */
  function RowMapping(movies: seq<Movie>, row: ExternalRow): (r: Option<IdMapping>)
    ensures r.Some? ==> r.value.externalId == Trim(row.externalId)
  {
    var externalYear := ExtractYear(Trim(row.releaseDate));
    match FirstByTitleAndYear(movies, Trim(row.title), externalYear)
    case None => None
    case Some(m) => Some(IdMapping(m.id, Trim(row.externalId)))
  }

  /** A row contributes a mapping exactly when some catalog movie passes the
      filter, and then it carries the id of the first such movie. */
  lemma {:induction false} RowMappingIsFirstMatch(movies: seq<Movie>, row: ExternalRow)
    ensures RowMapping(movies, row).Some? <==>
      exists i :: 0 <= i < |movies| && SameTitleAndYear(movies[i], Trim(row.title), ExtractYear(Trim(row.releaseDate)))
    ensures RowMapping(movies, row).Some? ==> exists i :: (0 <= i < |movies| && movies[i].id == RowMapping(movies, row).value.internalId
      && SameTitleAndYear(movies[i], Trim(row.title), ExtractYear(Trim(row.releaseDate)))
      && forall j :: 0 <= j < i ==> !SameTitleAndYear(movies[j], Trim(row.title), ExtractYear(Trim(row.releaseDate))))
  {
  }

  /** A row's mapping, given the year read from its date and the movie the
      filter found for it. */
  lemma {:induction false} RowMappingOf(movies: seq<Movie>, row: ExternalRow, externalYear: int, matchedMovie: Option<Movie>)
    requires externalYear == ExtractYear(Trim(row.releaseDate))
    requires matchedMovie == FirstByTitleAndYear(movies, Trim(row.title), externalYear)
    ensures RowMapping(movies, row) ==
      if matchedMovie.Some? then Some(IdMapping(matchedMovie.value.id, Trim(row.externalId))) else None
  {
  }

  /** The per-row outcome as a function value. */
  function RowMapper(movies: seq<Movie>): ExternalRow -> Option<IdMapping> {
    row => RowMapping(movies, row)
  }

  /** The outcome of every row, in row order. */
  function RowMappings(movies: seq<Movie>, rows: seq<ExternalRow>): (r: seq<Option<IdMapping>>)
    ensures |r| == |rows|
    ensures forall i :: 0 <= i < |rows| ==> r[i] == RowMapping(movies, rows[i])
  {
    Map(RowMapper(movies), rows)
  }

  /** What `match` returns for a list of rows: the rows' mappings, in row order. */
  function Mappings(movies: seq<Movie>, rows: seq<ExternalRow>): (r: seq<IdMapping>)
    ensures |r| <= |rows|
  {
    Somes(RowMappings(movies, rows))
  }

  /** The positions of the rows that contribute a mapping, in increasing order. */
  function HitRows(movies: seq<Movie>, rows: seq<ExternalRow>): (hits: seq<nat>)
    ensures forall k :: 0 <= k < |hits| ==> hits[k] < |rows|
    ensures forall j, k :: 0 <= j < k < |hits| ==> hits[j] < hits[k]
    ensures forall i :: 0 <= i < |rows| ==> (i in hits <==> RowMapping(movies, rows[i]).Some?)
  {
    SomeIndices(RowMappings(movies, rows))
  }

  /** `match` emits exactly one mapping per row that has a match and none for
      the others, in row order: the k-th mapping is that of the k-th matching row. */
  lemma {:induction false} MappingsInRowOrder(movies: seq<Movie>, rows: seq<ExternalRow>)
    ensures |Mappings(movies, rows)| == |HitRows(movies, rows)|
    ensures forall k :: 0 <= k < |HitRows(movies, rows)| ==>
      RowMapping(movies, rows[HitRows(movies, rows)[k]]) == Some(Mappings(movies, rows)[k])
  {
    SomesAt(RowMappings(movies, rows));
  }

  /** Running `match` on two batches of rows one after the other gives the
      two outputs one after the other. */
  lemma {:induction false} MappingsAppend(movies: seq<Movie>, a: seq<ExternalRow>, b: seq<ExternalRow>)
    ensures Mappings(movies, a + b) == Mappings(movies, a) + Mappings(movies, b)
  {
    MapAppend(RowMapper(movies), a, b);
    SomesAppend(RowMappings(movies, a), RowMappings(movies, b));
  }

  /** Every movie the public path picks for a row is also one of the
      candidates of the normalised path for the same title and year. */
  lemma {:induction false} PublicMatchIsCandidate(movies: seq<Movie>, title: string, year: int)
    requires FirstByTitleAndYear(movies, title, year).Some?
    ensures FirstByTitleAndYear(movies, title, year).value in Candidates(movies, title, year)
  {
    var m := FirstByTitleAndYear(movies, title, year).value;
    EqualsIgnoreCaseSameKey(m.title, title);
  }

  /** Extending the rows by one adds that row's mapping, if any, at the end. */
  lemma {:induction false} MappingsStep(movies: seq<Movie>, rows: seq<ExternalRow>, i: nat)
    requires i < |rows|
    ensures Mappings(movies, rows[..i + 1]) == Mappings(movies, rows[..i]) +
      if RowMapping(movies, rows[i]).Some? then [RowMapping(movies, rows[i]).value] else []
  {
    assert rows[..i + 1] == rows[..i] + [rows[i]];
    MapAppend(RowMapper(movies), rows[..i], [rows[i]]);
    SomesAppend(RowMappings(movies, rows[..i]), RowMappings(movies, [rows[i]]));
    SomesOne(RowMapping(movies, rows[i]));
  }

  lemma {:induction false} MappingsOfOneRow(movies: seq<Movie>, row: ExternalRow)
    ensures Mappings(movies, [row]) == if RowMapping(movies, row).Some? then [RowMapping(movies, row).value] else []
  {
    SomesOne(RowMapping(movies, row));
  }

  /** A single row maps to the first movie the filter finds for it. */
  lemma {:induction false} OneRowHit(movies: seq<Movie>, row: ExternalRow, m: Movie)
    requires FirstByTitleAndYear(movies, Trim(row.title), ExtractYear(Trim(row.releaseDate))) == Some(m)
    ensures Mappings(movies, [row]) == [IdMapping(m.id, Trim(row.externalId))]
  {
    MappingsOfOneRow(movies, row);
  }

  /** A single row the filter finds nothing for contributes nothing. */
  lemma {:induction false} OneRowMiss(movies: seq<Movie>, row: ExternalRow)
    requires FirstByTitleAndYear(movies, Trim(row.title), ExtractYear(Trim(row.releaseDate))).None?
    ensures Mappings(movies, [row]) == []
  {
    MappingsOfOneRow(movies, row);
  }

  /** A movie is found by its title, in any letter case, together with any
      release date of its year. */
  lemma {:induction false} UniqueMatchExample(m: Movie, row: ExternalRow)
    requires EqualsIgnoreCase(m.title, Trim(row.title))
    requires ExtractYear(Trim(row.releaseDate)) == m.year
    ensures Mappings([m], [row]) == [IdMapping(m.id, Trim(row.externalId))]
  {
    FirstOfSingleMovie(m, Trim(row.title), m.year);
    OneRowHit([m], row, m);
  }

  /** The same title with a release date of another year is a miss. */
  lemma {:induction false} YearMismatchExample(m: Movie, row: ExternalRow)
    requires ExtractYear(Trim(row.releaseDate)) != m.year
    ensures Mappings([m], [row]) == []
  {
    FirstOfSingleMovie(m, Trim(row.title), ExtractYear(Trim(row.releaseDate)));
    OneRowMiss([m], row);
  }

  /** The documented release dates of both cases, which need no trimming. */
  lemma {:induction false} ReleaseDateExamples(date: string, year: nat)
    requires year == 2010 || year == 2011
    requires date == if year == 2010 then "7/16/2010 12:00:00 AM" else "7/16/2011 12:00:00 AM"
    ensures ExtractYear(Trim(date)) == year
  {
    assert date[0] == '7' && date[|date| - 1] == 'M';
    TrimUnchanged(date);
    ExtractYearReleaseExamples(date, year);
  }

  /** An empty or unreadable release date yields the sentinel 0, which
      matches a catalog movie whose year column was "NULL". */
  lemma {:induction false} SentinelYearExample(m: Movie, row: ExternalRow)
    requires m.year == 0 && EqualsIgnoreCase(m.title, Trim(row.title))
    requires Trim(row.releaseDate) == [] || ParseReleaseYear(Trim(row.releaseDate)).None?
    ensures Mappings([m], [row]) == [IdMapping(m.id, Trim(row.externalId))]
  {
    UniqueMatchExample(m, row);
  }

  class Matcher {
    const movies: seq<Movie>
    const actorsAndDirectors: seq<ActorAndDirector>

    /** Loads the catalog and the roster once; loading the catalog only
        succeeds when every year column parses. */
    constructor(movieRows: seq<MovieRow>, actorAndDirectorRows: seq<ActorAndDirector>)
      requires ParseMovies(movieRows).Some?
      ensures movies == ParseMovies(movieRows).value
      ensures actorsAndDirectors == actorAndDirectorRows
    {
      movies := ParseMovies(movieRows).value;
      actorsAndDirectors := actorAndDirectorRows;
    }

    /** match: scans the external rows in order and appends the mapping of
        every row that has one. */
    method Match(rows: seq<ExternalRow>) returns (idMappings: seq<IdMapping>)
      ensures idMappings == Mappings(movies, rows)
    {
      idMappings := [];
      for i := 0 to |rows|
        invariant idMappings == Mappings(movies, rows[..i])
      {
        MappingsStep(movies, rows, i);
        var row := rows[i];
        var externalId := Trim(row.externalId);
        var externalTitle := Trim(row.title);
        var externalDate := Trim(row.releaseDate);
        var externalYear := ExtractYear(externalDate);
        var matchedMovie := FirstByTitleAndYear(movies, externalTitle, externalYear);
        RowMappingOf(movies, row, externalYear, matchedMovie);
        if matchedMovie.Some? {
          idMappings := idMappings + [IdMapping(matchedMovie.value.id, externalId)];
        }
      }
      assert rows[..|rows|] == rows;
    }

    /** refineMatchWithActorsAndDirector: returns the first potential match
        one of whose cast names occurs in `externalActors` or whose director
        equals it. The year argument is not used, as in the source. */
    method RefineMatchWithActorsAndDirector(externalActors: string, externalYear: int, potentialMatches: seq<Movie>)
      returns (r: Option<Movie>)
      ensures r == FirstQualifying(actorsAndDirectors, externalActors, potentialMatches)
    {
      for i := 0 to |potentialMatches|
        invariant forall j :: 0 <= j < i ==> !Qualifies(actorsAndDirectors, externalActors, potentialMatches[j])
      {
        var movie := potentialMatches[i];
        var movieActors := ActorsForMovie(actorsAndDirectors, movie.id);
        var movieDirector := DirectorForMovie(actorsAndDirectors, movie.id);
        if AnyContained(movieActors, externalActors) || movieDirector == externalActors {
          return Some(movie);
        }
      }
      return None;
    }
  }
}
