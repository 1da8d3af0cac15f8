# Movie matcher model

A Dafny model of `MatcherImpl`, the component that reconciles an internal
movie catalog (id, title, release year, plus a cast/director roster) with an
external catalog whose rows carry their own id, a title and a release date.
For every external row the matcher emits at most one `IdMapping` (internal
id, external id), in row order.

The model has seven modules:

- `Wrappers`: `Option` (Java's `Optional`, and an exception that aborts a
  computation).
- `Lists`: `Map` over a sequence, and `Somes`/`SomeIndices`, which keep the
  present values of a list of options, and their positions, in order.
- `Text`: the `java.lang.String` operations the matcher relies on, for ASCII.
  These are `trim`, case folding, `equalsIgnoreCase`, `contains` and
  `normalizeTitle` (lower-case, then keep only `[a-z0-9]`).
- `Numbers`: `Integer.parseInt` (optional sign, digits, 32-bit range, else
  `None`) and `Integer.toString`.
- `Dates`: `extractYear`. Its input is read with the pattern
  `M/d/yyyy h:mm:ss a`, written as a list of numeric field specifications
  (fewest and most digits, literal separator) that `ReadFields` reads in
  order, followed by the `AM`/`PM` marker. Any failure yields the sentinel `0`.
- `Catalog`: the `Movie` and `ActorAndDirector` records and the year column
  of `parseMovies`. It also holds the roster queries (`getActorsForMovie`,
  `getDirectorForMovie`), the first-hit search of the public path and the
  normalised-key search `findMatchingMovie`. The test that
  `refineMatchWithActorsAndDirector` applies is here too.
- `Matching`: the class `Matcher`. Its fields `movies` and
  `actorsAndDirectors` are `const` (Java `final`) and are set in the
  constructor. `Match` is the row loop, and `RefineMatchWithActorsAndDirector`
  is the candidate loop with early return. Each is proved against a function
  (`Mappings`, `FirstQualifying`), and the lemmas about those functions state
  the matcher's promises.

The model keeps the source's two matching paths apart. `match` compares the
trimmed external title with each catalog title using `equalsIgnoreCase`, and
the year with `==`. `findMatchingMovie` compares normalised titles, but
nothing in the source calls it. `PublicMatchIsCandidate` relates the two
paths: every movie `match` picks is also a candidate of the normalised path.
`PunctuationOnlyIgnoredByKey` shows that the converse fails.

Some behaviours of the code are easy to miss, and the model keeps them:

- The sentinel year `0` is compared like any other year. A row whose date
  cannot be read therefore matches a catalog movie whose year column was
  `NULL` (`SentinelYearExample`).
- Candidates are refined in catalog order; nothing sorts them by id first.
- The disambiguation signal is the external title itself
  (`MatcherImpl.java:113`). The model keeps it as an arbitrary string
  parameter of `FirstQualifying` and `RefineMatchWithActorsAndDirector`.
  `TitleAsSignalExample` shows its effect.
- There is no index. Both searches are linear scans over the catalog list.

## Model

| member | source | states |
|---|---|---|
| `Text.Trim` | src/main/java/com/real/matcher/MatcherImpl.java:69-71 | trimming leaves no blank (code at most U+0020) at either end, and an all-blank field becomes empty |
| `Text.TrimUnchanged` | src/main/java/com/real/matcher/MatcherImpl.java:39 | a field without blank edges is unchanged by trimming |
| `Text.TrimOfPadded` | src/main/java/com/real/matcher/MatcherImpl.java:39 | trimming a text with blanks on either side gives the text back when its own ends are not blank |
| `Text.ToLower` | src/main/java/com/real/matcher/MatcherImpl.java:121 | lower-casing keeps the length and folds each character on its own (ASCII) |
| `Text.KeepLowerAlnum` | src/main/java/com/real/matcher/MatcherImpl.java:121 | removing `[^a-z0-9]` leaves only characters of `[a-z0-9]` and never lengthens the text |
| `Text.KeepLowerAlnumMembers` | src/main/java/com/real/matcher/MatcherImpl.java:121 | a character survives the removal exactly when it is in the input and in `[a-z0-9]` |
| `Text.KeepLowerAlnumClean` | src/main/java/com/real/matcher/MatcherImpl.java:121 | text made only of `[a-z0-9]` passes the removal unchanged |
| `Text.NormalizeTitle` | src/main/java/com/real/matcher/MatcherImpl.java:120-122 | the normalised title holds only `[a-z0-9]` and is no longer than the title |
| `Text.NormalizeTitleMembers` | src/main/java/com/real/matcher/MatcherImpl.java:120-122 | the normalised title holds exactly the title's folded characters that fall in `[a-z0-9]` |
| `Text.NormalizeTitleIdempotent` | src/main/java/com/real/matcher/MatcherImpl.java:120-122 | normalising a normalised title changes nothing |
| `Text.NormalizeTitleAppend` | src/main/java/com/real/matcher/MatcherImpl.java:120-122 | the key of a concatenation is the concatenation of the keys, so kept characters stay in order |
| `Text.EqualsIgnoreCase` | src/main/java/com/real/matcher/MatcherImpl.java:77 | two titles are equal ignoring case when they have the same length and agree position by position after ASCII case folding |
| `Text.EqualsIgnoreCaseReflexive` | src/main/java/com/real/matcher/MatcherImpl.java:77 | every title equals itself ignoring case |
| `Text.EqualsIgnoreCaseIff` | src/main/java/com/real/matcher/MatcherImpl.java:77 | two titles are equal ignoring case exactly when their lower-cased forms are equal |
| `Text.EqualsIgnoreCaseSameKey` | src/main/java/com/real/matcher/MatcherImpl.java:107 | titles equal ignoring case have the same normalised key |
| `Text.PunctuationOnlyIgnoredByKey` | src/main/java/com/real/matcher/MatcherImpl.java:120-122 | inserting anywhere in a title a character that is outside `[a-z0-9]` after folding keeps its normalised key, yet the two titles are not equal ignoring case |
| `Text.Contains` | src/main/java/com/real/matcher/MatcherImpl.java:131 | a name is contained in the signal when it is a prefix of the signal or of one of its suffixes |
| `Text.ContainsIff` | src/main/java/com/real/matcher/MatcherImpl.java:131 | `contains` holds exactly when the name occurs at some position of the signal |
| `Text.ContainsChar` | src/main/java/com/real/matcher/MatcherImpl.java:131 | a one-letter name is contained exactly when that letter occurs in the signal |
| `Numbers.ParseInt` | src/main/java/com/real/matcher/MatcherImpl.java:43 | a parsed value fits in a Java `int`; only a sign or a digit can start accepted text |
| `Numbers.ParseIntDecimal` | src/main/java/com/real/matcher/MatcherImpl.java:43 | parsing the decimal spelling of any `int` gives it back |
| `Numbers.ParseIntUnsigned` | src/main/java/com/real/matcher/MatcherImpl.java:43 | a run of digits whose value fits in an `int` parses to that value |
| `Numbers.ParseIntNegative` | src/main/java/com/real/matcher/MatcherImpl.java:43 | a minus sign followed by digits whose value is at most 2^31 parses to the negated value |
| `Numbers.ParseIntPlus` | src/main/java/com/real/matcher/MatcherImpl.java:43 | a plus sign followed by digits whose value fits in an `int` parses to that value |
| `Numbers.TakeDigits` | src/main/java/com/real/matcher/MatcherImpl.java:92 | a numeric field reads at most `max` characters, all of them digits |
| `Numbers.TakeDigitsSplits` | src/main/java/com/real/matcher/MatcherImpl.java:92 | the digits read and the text left over make up the input, and a field that stops short of `max` digits stops at a non-digit or the end |
| `Numbers.TakeDigitsOf` | src/main/java/com/real/matcher/MatcherImpl.java:92 | digits followed by a non-digit are read exactly |
| `Dates.Field` | src/main/java/com/real/matcher/MatcherImpl.java:92 | a pattern field has a width within its bounds; four or fewer digits give a value of at most 9999 |
| `Dates.ReadFields` | src/main/java/com/real/matcher/MatcherImpl.java:92 | reading the fields of a pattern yields one scan per remaining field |
| `Dates.ReadFieldsWidths` | src/main/java/com/real/matcher/MatcherImpl.java:92 | each scan read has a width within the bounds of its field, and a field of at most four digits has a value of at most 9999 |
| `Dates.ParseReleaseYear` | src/main/java/com/real/matcher/MatcherImpl.java:92 | an accepted date yields a year between 1 and 9999 |
| `Dates.ParseReleaseYearOf` | src/main/java/com/real/matcher/MatcherImpl.java:92 | any text of the shape `M/d/yyyy h:mm:ss AM` or `PM` with a four-digit year and fields within range parses to that year |
| `Dates.ExtractYear` | src/main/java/com/real/matcher/MatcherImpl.java:86-98 | the result is 0 exactly when the date is empty or the pattern rejects it, and otherwise lies in 1..9999 |
| `Dates.ExtractYearOfFormatted` | src/main/java/com/real/matcher/MatcherImpl.java:86-98 | every valid date written in the pattern yields its own year |
| `Dates.ExtractYearAtMidnight` | src/main/java/com/real/matcher/MatcherImpl.java:86-98 | a date at "12:00:00 AM" with a month of 1..12, a day of 1..31 and a four-digit year from 1 yields that year |
| `Dates.ExtractYearNeedsFourDigits` | src/main/java/com/real/matcher/MatcherImpl.java:92 | a year field of other than four digits makes extraction return 0 |
| `Dates.ExtractYearExample` | src/main/java/com/real/matcher/MatcherImpl.java:92 | "3/13/1991 12:00:00 AM" yields 1991 |
| `Dates.ExtractYearReleaseExamples` | src/main/java/com/real/matcher/MatcherImpl.java:92 | "7/16/2010 12:00:00 AM" yields 2010, and "7/16/2011 12:00:00 AM" yields 2011 |
| `Dates.ZeroHourExample` | src/main/java/com/real/matcher/MatcherImpl.java:92 | "7/16/2010 0:00:00 AM" yields 2010: the smart resolver accepts a clock hour of 0 |
| `Catalog.Movie` | src/main/java/com/real/matcher/MatcherImpl.java:156-178 | a catalog movie is an immutable record of id, title and year |
| `Catalog.ActorAndDirector` | src/main/java/com/real/matcher/MatcherImpl.java:180-202 | a roster entry is an immutable record of movie id, name and role |
| `Catalog.YearColumn` | src/main/java/com/real/matcher/MatcherImpl.java:39-44 | a trimmed year column of "NULL" or nothing becomes 0, and every parsed year fits in an `int` |
| `Catalog.YearColumnOfDecimal` | src/main/java/com/real/matcher/MatcherImpl.java:39-44 | the `Integer.toString` spelling of any `int`, with or without surrounding blanks, becomes that integer |
| `Catalog.YearColumnOfDigits` | src/main/java/com/real/matcher/MatcherImpl.java:39-44 | any other column of an optional `+` or `-` followed by digits (leading zeros included), with or without surrounding blanks, becomes its signed value when that fits in an `int` |
| `Catalog.ParseMovies` | src/main/java/com/real/matcher/MatcherImpl.java:31-48 | loading succeeds exactly when every year column parses; it then yields one movie per row, in row order, with the row's id, title and year |
| `Catalog.IsCastOf` | src/main/java/com/real/matcher/MatcherImpl.java:141 | a roster entry belongs to the movie's cast when its movie id matches and its role is exactly "cast" |
| `Catalog.ActorsForMovie` | src/main/java/com/real/matcher/MatcherImpl.java:139-144 | a name is listed exactly when the roster has a "cast" entry with that movie id and that name |
| `Catalog.ActorsForMovieAppend` | src/main/java/com/real/matcher/MatcherImpl.java:139-144 | the cast list follows roster order |
| `Catalog.FirstDirector` | src/main/java/com/real/matcher/MatcherImpl.java:147-151 | the roster entry found is absent exactly when the movie has no "director" entry, and otherwise is the first such entry in roster order |
| `Catalog.IsDirectorOf` | src/main/java/com/real/matcher/MatcherImpl.java:149 | a roster entry is a director of the movie when its movie id matches and its role is exactly "director" |
| `Catalog.DirectorForMovie` | src/main/java/com/real/matcher/MatcherImpl.java:147-153 | a movie without a "director" entry gets ""; otherwise the result is the name of its first "director" entry in roster order |
| `Catalog.SameTitleAndYear` | src/main/java/com/real/matcher/MatcherImpl.java:77 | the filter of `match`: titles equal ignoring case and equal years, the sentinel 0 included |
| `Catalog.FirstByTitleAndYear` | src/main/java/com/real/matcher/MatcherImpl.java:76-78 | the result is empty exactly when no movie has the title (ignoring case) and the year; otherwise it is the first such movie in catalog order |
| `Catalog.FirstOfSingleMovie` | src/main/java/com/real/matcher/MatcherImpl.java:76-78 | in a one-movie catalog the movie is found exactly when it passes the filter |
| `Catalog.SameKey` | src/main/java/com/real/matcher/MatcherImpl.java:107-108 | the filter of `findMatchingMovie`: equal normalised titles and equal years |
| `Catalog.Candidates` | src/main/java/com/real/matcher/MatcherImpl.java:106-109 | a movie is a potential match exactly when it is in the catalog with the same normalised title and the same year |
| `Catalog.CandidatesAppend` | src/main/java/com/real/matcher/MatcherImpl.java:106-109 | potential matches keep catalog order |
| `Catalog.AnyContained` | src/main/java/com/real/matcher/MatcherImpl.java:131 | the cast test holds exactly when some listed name is contained in the signal |
| `Catalog.Qualifies` | src/main/java/com/real/matcher/MatcherImpl.java:131 | a candidate qualifies when one of its cast names is contained in the signal or its director name equals the signal |
| `Catalog.FirstQualifying` | src/main/java/com/real/matcher/MatcherImpl.java:125-136 | the result is empty exactly when no candidate qualifies; otherwise it is the first qualifying candidate in list order, and so a member of the list |
| `Catalog.FindMatchingMovie` | src/main/java/com/real/matcher/MatcherImpl.java:102-117 | no candidate gives empty, one candidate is returned, and several give the first qualifying candidate in list order (or empty when none qualifies); any result is a catalog movie with the key |
| `Catalog.DuneCasts` | src/main/java/com/real/matcher/MatcherImpl.java:139-144 | the example roster lists cast X, Y for movie 1 and Z for movie 2 |
| `Catalog.DuneDirectors` | src/main/java/com/real/matcher/MatcherImpl.java:147-153 | the example roster's directors are A for movie 1 and B for movie 2 |
| `Catalog.CastDisambiguationExample` | src/main/java/com/real/matcher/MatcherImpl.java:125-136 | a signal containing a cast name of the first of two same-key releases picks that release |
| `Catalog.TitleAsSignalExample` | src/main/java/com/real/matcher/MatcherImpl.java:113 | with the title as the signal, two same-key releases whose names do not occur in the title stay unresolved |
| `Matching.RowMapping` | src/main/java/com/real/matcher/MatcherImpl.java:67-80 | a row's mapping carries the row's trimmed external id |
| `Matching.RowMappingIsFirstMatch` | src/main/java/com/real/matcher/MatcherImpl.java:74-80 | a row maps exactly when some movie passes the filter, and then to the id of the first such movie |
| `Matching.RowMappings` | src/main/java/com/real/matcher/MatcherImpl.java:67-81 | there is one outcome per row, and the i-th is row i's |
| `Matching.Mappings` | src/main/java/com/real/matcher/MatcherImpl.java:64-84 | the output is never longer than the input |
| `Matching.HitRows` | src/main/java/com/real/matcher/MatcherImpl.java:64-84 | the matching row positions increase strictly, and a position is listed exactly when its row maps |
| `Matching.MappingsInRowOrder` | src/main/java/com/real/matcher/MatcherImpl.java:64-84 | the k-th mapping is the mapping of the k-th matching row: one per hit, none per miss, in row order |
| `Matching.MappingsAppend` | src/main/java/com/real/matcher/MatcherImpl.java:67-81 | the output for two batches of rows is the two outputs concatenated |
| `Matching.MappingsStep` | src/main/java/com/real/matcher/MatcherImpl.java:67-81 | handling one more row appends that row's mapping, if it has one, to the output so far |
| `Matching.PublicMatchIsCandidate` | src/main/java/com/real/matcher/MatcherImpl.java:76-78 | every movie the public path picks is also a candidate of the normalised path |
| `Matching.OneRowHit` | src/main/java/com/real/matcher/MatcherImpl.java:76-80 | a single matching row yields exactly its mapping |
| `Matching.OneRowMiss` | src/main/java/com/real/matcher/MatcherImpl.java:76-80 | a single non-matching row yields nothing |
| `Matching.MappingsOfOneRow` | src/main/java/com/real/matcher/MatcherImpl.java:76-80 | a single row yields its mapping when it has one, and nothing otherwise |
| `Matching.UniqueMatchExample` | src/main/java/com/real/matcher/MatcherImpl.java:74-80 | in a one-movie catalog, a row whose trimmed title equals the movie title ignoring case and whose date yields the movie year maps to that movie |
| `Matching.YearMismatchExample` | src/main/java/com/real/matcher/MatcherImpl.java:74-80 | in a one-movie catalog, a row whose date yields another year than the movie year is a miss, whatever its title |
| `Matching.ReleaseDateExamples` | src/main/java/com/real/matcher/MatcherImpl.java:71-74 | the documented dates yield 2010 and 2011 after trimming |
| `Matching.SentinelYearExample` | src/main/java/com/real/matcher/MatcherImpl.java:74-80 | a movie loaded with year 0 matches a row of the same title whose date is empty or unreadable |
| `Matching.Matcher.constructor` | src/main/java/com/real/matcher/MatcherImpl.java:22-28 | the catalog is the parsed movie rows and the roster is stored as given |
| `Matching.Matcher.Match` | src/main/java/com/real/matcher/MatcherImpl.java:64-84 | the loop returns exactly `Mappings(movies, rows)` |
| `Matching.Matcher.RefineMatchWithActorsAndDirector` | src/main/java/com/real/matcher/MatcherImpl.java:125-136 | the loop with early return yields exactly `FirstQualifying` over the roster, the signal and the candidates |

## Left out

- Splitting CSV rows with the quote-aware regular expression and stripping quotes from titles and names (`MatcherImpl.java:33-35, 54-57, 68`) are not modelled. Catalog rows arrive as `MovieRow` (the id already a number, the title without quotes, the raw year column), roster rows as `ActorAndDirector` records, and external rows as the three raw columns the matcher reads.
- `CsvStream` and `getDataRows` are external I/O and are not modelled. Rows are given as sequences.
- `parseActorsAndDirectors` reduces to tokenisation, quote stripping and `Integer.parseInt` of the id, all left out. The roster is given as records.
- `Integer.parseInt` on the id columns (`MatcherImpl.java:34, 56`) is not modelled. Ids are given as integers and are not limited to 32 bits.
- `Matching.Matcher.constructor`: requires that every year column parses. In the source a bad year column throws `NumberFormatException` out of the constructor. The model shows that failure as `ParseMovies` returning `None`.
- `Dates.ParseReleaseYear`: it does not model the JDK's acceptance of a year that has a `+` sign and more than four digits. It assumes an English locale for the `AM`/`PM` text.
- `Numbers.ParseInt`: accepts the ASCII digits `0`-`9` only. `Integer.parseInt` also reads the other Unicode decimal digits (through `Character.digit`).
- `Dates.ExtractYear`: has no `null` case, because the matcher passes it a trimmed column, which is never null. The empty string is handled.
- The case folding in `toLowerCase` and `equalsIgnoreCase` is ASCII only. Locale and Unicode behaviour are not modelled, so for example the dotted capital I or the Kelvin sign is not folded into `[a-z0-9]`.
- Logging through SLF4J is not modelled. It has no effect on results.
- The `Matcher` interface and `DatabaseType` (an argument of `match` that `match` ignores) are not modelled. `IdMapping` is reduced to an (internal id, external id) pair.
- No member models a parallel `match`. The source is sequential.
