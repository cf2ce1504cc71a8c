# movie — a verified model of its core

`movie` is a small Remix web application for keeping a personal film diary. A user:

- adds a film by its IMDb id or URL, which fetches it from the TMDb catalog;
- records the day they watched it and a rating;
- browses the films watched in a year;
- searches titles;
- reads statistics about their viewing.

This project models the logic between the forms and the database, in Dafny, and proves what
that logic promises. The database tables are lists of rows. Catalog responses, number and date
parsing, bcrypt, and URI coding are inputs or uninterpreted functions.

| module | file | models |
|---|---|---|
| `AddMovie` | `addmovie.dfy` | `getCastAndCrew` and `imdbId` (`app/utils/addMovie.server.ts`) |
| `NewMovie` | `newmovie.dfy` | the add-movie page's action (`app/routes/movie/new.tsx`) |
| `Stats` | `stats.dfy` | the statistics loader (`app/routes/stats.tsx`) |
| `MovieMeta` | `meta.dfy` | `movieMeta` (`app/utils/movie.ts`) |
| `Login` | `login.dfy` | validation and the login/register action (`app/routes/login.tsx`) |
| `YearIndex` | `yearindex.dfy` | the start page's year filter (`app/routes/index.tsx`) |
| `Search` | `search.dfy` | the search page's query rewrite and redirect (`app/routes/search.tsx`) |
| `Query` | `query.dfy` | the SQL shapes the loaders use: `WHERE`, `GROUP BY … COUNT(*)`, `HAVING`, `ORDER BY`, `LIMIT` |
| `RuntimeFloat` | `runtime-float.dfy` | the statistics loader's runtime breakdown in JavaScript numbers (`app/routes/stats.tsx`) |
| `Binary64` | `binary64.dfy` | JavaScript numbers (IEEE 754 doubles) and round-to-nearest |
| `Schema`, `Form`, `Text`, `Dates`, `Wrappers` | | table rows, form data, decimal strings and joins, calendar instants, `Option` |

Modelling choices:

- **Persons map.** `getCastAndCrew` is a method over a `PersonMap` class that keeps JavaScript
  `Map` semantics: insertion order, and overwrite in place. It is proved equal to
  `CastAndCrew`. That function works on the list of insertions: one credit per key, at the
  key's first position, holding the key's last value.
- **Map keys.** The key `${id}-${role}` is modelled as the pair `Key(id, role)`. The string form
  is injective for integer ids because no role name contains `-`.
- **Add action.** The action is a method over a `Database` class, proved equal to a pure
  `ActionSpec`. It keeps the table invariant `Schema.Valid`:
  - movie, genre and person ids are 1, 2, … in insertion order;
  - `imdb_id`s, genre names and person `original_id`s are unique.
- **Database ids.** Ids handed out by the database are the next row position.
- **Disagreement over `imdbId`.** The documented behaviour of `imdbId` and the test at
  `app/utils/addMovie.test.ts:5` say a bare TMDb id comes back unchanged. The code
  (`app/utils/addMovie.server.ts:52-53`) returns nothing for it. The model follows the code, and
  `AddMovie.BareCatalogIdIsDropped` states what the code does.
- **Ratings.** The documented range of ratings (0–10) is not checked by the code, so the model
  does not check it either.

## Model

| member | source | states |
|---|---|---|
| AddMovie.Qualifies | app/utils/addMovie.server.ts:33-36 | a crew entry is kept iff its job is a key of `jobs` and its department one of `validDepartments`; `AddMovie.CrewCreditsFacts` states what that selects |
| AddMovie.CastCredits | app/utils/addMovie.server.ts:20-30 | the cast loop's insertions, one per entry in order; `AddMovie.CastCreditsFacts` states their number and contents |
| AddMovie.CrewCredits | app/utils/addMovie.server.ts:32-47 | the crew loop's insertions, one per kept entry in order; `AddMovie.CrewCreditsFacts` states which and that none is `cast` |
| AddMovie.CastAndCrew | app/utils/addMovie.server.ts:14-50 | the specification of `getCastAndCrew`: the map values after the cast insertions then the crew insertions; `AddMovie.GetCastAndCrew` is proved equal to it and `AddMovie.CreditOrigin` to `AddMovie.InsertionOrder` state its properties |
| AddMovie.CastCreditsFacts | app/utils/addMovie.server.ts:20-30 | one credit per cast entry, in order, each with job `cast` and the entry's name and id |
| AddMovie.CrewCreditsFacts | app/utils/addMovie.server.ts:32-47 | a crew entry yields a credit iff its job is a key of `jobs` and its department is allowed; no crew credit has job `cast` |
| AddMovie.FirstKeysFacts | app/utils/addMovie.server.ts:18-49 | the keys of the map are exactly the keys inserted, without repetition, never more than the insertions |
| AddMovie.Collapse | app/utils/addMovie.server.ts:49 | `Array.from(persons.values())`: one value per key in first-insertion order, each the key's last insertion |
| AddMovie.PersonMap.Set | app/utils/addMovie.server.ts:21-37 | `Map.set`: the value is replaced; the key is appended only when new |
| AddMovie.SetSemantics | app/utils/addMovie.server.ts:21-37 | a new key appends its credit; an existing key keeps its position and takes the new credit |
| AddMovie.GetCastAndCrew | app/utils/addMovie.server.ts:14-50 | the two loops leave exactly `CastAndCrew(cast, crew)` |
| AddMovie.CollapseKeys | app/utils/addMovie.server.ts:49 | the output's keys are the map's keys in first-insertion order |
| AddMovie.CreditOrigin | app/utils/addMovie.server.ts:20-47 | every credit comes from a cast entry (job `cast`) or a qualifying crew entry (job `jobs[job]`); `create` and `where` carry the same `original_id` |
| AddMovie.EveryEntryCredited | app/utils/addMovie.server.ts:20-47 | every cast entry and every qualifying crew entry has a credit under its person and role |
| AddMovie.CastEntriesInserted | app/utils/addMovie.server.ts:20-30 | every cast entry is inserted under `(id, cast)` |
| AddMovie.CrewEntriesInserted | app/utils/addMovie.server.ts:32-47 | every qualifying crew entry is inserted under `(id, jobs[job])` |
| AddMovie.OneCreditPerKey | app/utils/addMovie.server.ts:18-49 | at most one credit per person and role, so no more credits than cast and crew entries together |
| AddMovie.LaterCastEntryWins | app/utils/addMovie.server.ts:20-30 | among cast entries with the same id the last one's credit is the one kept |
| AddMovie.CastAndCrewSamePerson | app/utils/addMovie.server.ts:21-37 | a person in the cast and in a qualifying crew role gets two distinct credits |
| AddMovie.CrewCreditsAppend | app/utils/addMovie.server.ts:32-47 | the crew loop handles each entry independently of the others |
| AddMovie.UnqualifiedCrewIgnored | app/utils/addMovie.server.ts:3-36 | a crew entry with an unknown job or department changes nothing |
| AddMovie.FirstKeysOrder | app/utils/addMovie.server.ts:49 | map keys are ordered by the position of their first insertion |
| AddMovie.InsertionOrder | app/utils/addMovie.server.ts:21-49 | the output is ordered by the first insertion of each credit's key |
| AddMovie.ProducerTitlesCollapse | app/utils/addMovie.server.ts:8-37 | a Producer and an Executive Producer credit of one person collapse into one `producer` credit |
| AddMovie.DigitRun | app/utils/addMovie.server.ts:53 | the greedy `\d+`: a run of digits followed by a non-digit or the end |
| AddMovie.FindMatch | app/utils/addMovie.server.ts:53 | the leftmost position where `tt\d` starts, or none |
| AddMovie.MatchTt | app/utils/addMovie.server.ts:53 | `match(/tt\d+/)?.[0]`: none iff no match; otherwise the leftmost match with the longest digit run |
| AddMovie.ImdbId | app/utils/addMovie.server.ts:52-53 | no id for a missing field; otherwise the match in the field's string form |
| AddMovie.ImdbIdOfId | app/utils/addMovie.test.ts:8-10 | `tt0111161` comes back unchanged |
| AddMovie.ImdbIdOfUrl | app/utils/addMovie.test.ts:12-16 | an IMDb title URL gives the `tt` id it holds |
| AddMovie.PrefixedId | app/utils/addMovie.server.ts:53 | an id preceded by digit-free text and followed by a non-digit is the match |
| AddMovie.LeadingMatch | app/utils/addMovie.server.ts:53 | `tt`, digits, then a non-digit: the match is `tt` and all the digits |
| AddMovie.DigitFreePrefix | app/utils/addMovie.server.ts:53 | a digit-free prefix does not change the match |
| AddMovie.BareCatalogIdIsDropped | app/utils/addMovie.server.ts:52-53 | a bare TMDb id gives no id (the test at addMovie.test.ts:5 expects it back) |
| NewMovie.RatingValue | app/routes/movie/new.tsx:41 | `Number(form.get('rating'))`: a missing rating is 0 |
| NewMovie.WatchDate | app/routes/movie/new.tsx:42-44 | the submitted date when the field is truthy, otherwise the current time; `NewMovie.InvalidWatchDateFails` states the failing case |
| NewMovie.MovieRoute | app/routes/movie/new.tsx:40-45 | `/` followed by the IMDb id, or `/undefined`; `NewMovie.AddFetchesRoute` states the requests sent |
| NewMovie.ConnectGenres | app/routes/movie/new.tsx:91-95 | one `movie_genre` row per fetched genre |
| NewMovie.ConnectPersons | app/routes/movie/new.tsx:96-98 | one `movie_person` row per credit |
| NewMovie.LinkGenre | app/routes/movie/new.tsx:92-94 | one `connectOrCreate` of a genre by name; `NewMovie.LinkGenreGrows`, `LinkGenreTarget`, `LinkGenreNew` and `LinkGenreUnique` state its effect |
| NewMovie.LinkPerson | app/routes/movie/new.tsx:96-98 | one `connectOrCreate` of a person by `original_id`; `NewMovie.LinkPersonGrows`, `LinkPersonTarget`, `LinkPersonNew` and `LinkPersonUnique` state its effect |
| NewMovie.LinkGenreGrows | app/routes/movie/new.tsx:93 | connectOrCreate keeps the genre rows and their id order, adding at most one row and exactly one link |
| NewMovie.LinkGenreTarget | app/routes/movie/new.tsx:93 | the new link points from the movie at a genre row with the requested name |
| NewMovie.LinkGenreNew | app/routes/movie/new.tsx:93 | a genre row is created only when no genre has that name |
| NewMovie.LinkGenreUnique | app/routes/movie/new.tsx:93 | genre names stay unique |
| NewMovie.LinkPersonGrows | app/routes/movie/new.tsx:96-98 | connectOrCreate keeps the person rows and their id order, adding at most one row and exactly one link |
| NewMovie.LinkPersonTarget | app/routes/movie/new.tsx:96-98 | the new link points at the person with the credit's `original_id` |
| NewMovie.LinkPersonNew | app/routes/movie/new.tsx:96-98 | a person is created, from the credit's `create` data, only when none has that `original_id` |
| NewMovie.LinkPersonUnique | app/routes/movie/new.tsx:96-98 | `original_id`s stay unique |
| NewMovie.ConnectGenresIds | app/routes/movie/new.tsx:91-95 | existing genre rows are kept and ids stay in order |
| NewMovie.ConnectGenresUnique | app/routes/movie/new.tsx:91-95 | genre names stay unique after all genres are connected |
| NewMovie.ConnectGenresRows | app/routes/movie/new.tsx:91-95 | every created genre row has one of the fetched names and none existed before |
| NewMovie.ConnectGenresLinks | app/routes/movie/new.tsx:91-95 | the i-th link points at an existing genre row named like the i-th fetched genre |
| NewMovie.ConnectGenresMovie | app/routes/movie/new.tsx:91-95 | every link is for the new movie |
| NewMovie.GenreReused | app/routes/movie/new.tsx:93 | an existing genre is connected, not duplicated |
| NewMovie.ConnectPersonsIds | app/routes/movie/new.tsx:96-98 | existing person rows are kept and ids stay in order |
| NewMovie.ConnectPersonsUnique | app/routes/movie/new.tsx:96-98 | `original_id`s stay unique after all credits are connected |
| NewMovie.ConnectPersonsRows | app/routes/movie/new.tsx:96-98 | every created person comes from one of the credits and did not exist before |
| NewMovie.ConnectPersonsRoles | app/routes/movie/new.tsx:96-98 | the i-th link is for the new movie with the i-th credit's job |
| NewMovie.ConnectPersonsLinks | app/routes/movie/new.tsx:96-98 | the i-th link points at the person with the i-th credit's `original_id` |
| NewMovie.InsertMovieFacts | app/routes/movie/new.tsx:76-102 | the new movie row has the fetched attributes and the next id, with one seen row, one rating row, its genres and its persons linked |
| NewMovie.InsertMovieGenres | app/routes/movie/new.tsx:91-95 | the genre part of the nested create |
| NewMovie.InsertMoviePersons | app/routes/movie/new.tsx:96-98 | the person part of the nested create |
| NewMovie.InsertMovieKeepsValid | app/routes/movie/new.tsx:76-102 | creating a movie whose `imdb_id` is new keeps the database invariant |
| NewMovie.InsertMovie | app/routes/movie/new.tsx:76-102 | the nested `db.movie.create(fields)`; `NewMovie.InsertMovieFacts` and `NewMovie.InsertMovieKeepsValid` state its result |
| NewMovie.ActionSpec | app/routes/movie/new.tsx:18-106 | the action as a function of the tables: the search branch, the add branch, or nothing; `NewMovie.Action` is proved to do it and the lemmas `SearchNeedsQuery` to `ActionKeepsValid` state its cases |
| NewMovie.SearchSpec | app/routes/movie/new.tsx:23-37 | the search branch; `NewMovie.SearchNeedsQuery` and `NewMovie.SearchForwardsQuery` state its cases |
| NewMovie.AddSpec | app/routes/movie/new.tsx:39-105 | the add branch; `NewMovie.Add` is proved to do it and `InvalidWatchDateFails` to `AddKeepsCatalog` state its cases |
| NewMovie.SearchNeedsQuery | app/routes/movie/new.tsx:23-28 | a search without a query is a 400 `Query is required`, with no catalog request and no change |
| NewMovie.SearchForwardsQuery | app/routes/movie/new.tsx:23-37 | a search sends the query to the catalog and answers its results |
| NewMovie.OtherActionsIgnored | app/routes/movie/new.tsx:23-106 | any other `_action` answers nothing and changes nothing |
| NewMovie.InvalidWatchDateFails | app/routes/movie/new.tsx:42-44 | a date that does not parse makes `toISOString` throw before anything is fetched |
| NewMovie.AddFetchesRoute | app/routes/movie/new.tsx:40-46 | the catalog is asked for `/${id}` and `/${id}/credits`, `/undefined` when there is no id; a failed fetch changes nothing |
| NewMovie.ExistingMovieGetsWatch | app/routes/movie/new.tsx:49-72 | a known `imdb_id` of the fetched record adds one seen and one rating row for that movie and redirects there |
| NewMovie.ExistingMovieBadRating | app/routes/movie/new.tsx:56-70 | with a non-integer rating the seen row is written and the rating insert fails |
| NewMovie.NewMovieCreated | app/routes/movie/new.tsx:75-104 | an unknown `imdb_id` creates the movie with its rows and redirects to its page |
| NewMovie.NewMovieRejected | app/routes/movie/new.tsx:82-102 | an invalid release date or rating makes the create fail and change nothing |
| NewMovie.ActionKeepsValid | app/routes/movie/new.tsx:18-106 | every action keeps the database invariant |
| NewMovie.AddKeepsValid | app/routes/movie/new.tsx:39-105 | the add branch keeps the database invariant |
| NewMovie.NewMovieInserted | app/routes/movie/new.tsx:75-102 | the create branch leaves `InsertMovie` of the fetched record |
| NewMovie.AddKeepsCatalog | app/routes/movie/new.tsx:49-72 | outside the create branch the movie, genre and person tables are unchanged |
| NewMovie.CastAndCrewSameKeys | app/utils/addMovie.server.ts:24-43 | every credit's `create` and `where` name the same `original_id` |
| NewMovie.Database.CreateSeen | app/routes/movie/new.tsx:56-62 | `db.seen.create` appends the row and changes nothing else |
| NewMovie.Database.CreateRating | app/routes/movie/new.tsx:64-70 | `db.rating.create` appends the row and changes nothing else |
| NewMovie.Database.CreateMovie | app/routes/movie/new.tsx:102 | `db.movie.create` leaves `InsertMovie` and returns the new id |
| NewMovie.Action | app/routes/movie/new.tsx:18-106 | the action, step by step, answers and changes exactly what `ActionSpec` says, and keeps the invariant |
| NewMovie.Add | app/routes/movie/new.tsx:39-105 | the add branch answers, asks the catalog and writes exactly what `AddSpec` says |
| Query.BumpFacts | app/routes/stats.tsx:82-112 | one more row adds one to its key's count and to the total, and keeps keys distinct |
| Query.BumpCounts | app/routes/stats.tsx:82-112 | one more row adds one to its key's count and to the total |
| Query.BumpKeys | app/routes/stats.tsx:82-112 | one more row adds its key when it was not there |
| Query.BumpDistinct | app/routes/stats.tsx:82-112 | one more row keeps keys distinct |
| Query.Tally | app/routes/stats.tsx:77-112 | `GROUP BY` with `COUNT(*)`: each key's count is its number of rows; keys distinct; counts sum to the rows |
| Query.TallyGroup | app/routes/stats.tsx:77-112 | a group's count is its key's number of rows, at least one |
| Query.Insert | app/routes/stats.tsx:77-111 | ordered insertion keeps the rows and the order |
| Query.Sort | app/routes/stats.tsx:77-111 | `ORDER BY`: a permutation, ordered under a total comparison |
| Query.Limit | app/routes/stats.tsx:94-112 | `LIMIT n`: the first `min(length, n)` rows; all rows when there are no more than n |
| Query.LimitOrdered | app/routes/stats.tsx:94-112 | a limit of an ordered list is ordered |
| Query.OrderedChain | app/routes/stats.tsx:93-111 | in a list ordered under a transitive comparison, every row comes before every later row |
| Query.LimitTop | app/routes/stats.tsx:94-112 | a row cut off by `LIMIT` comes after every row kept |
| Query.SortLimitTop | app/routes/stats.tsx:93-112 | `ORDER BY … LIMIT`: a group whose key is not kept comes after every group kept |
| Query.LeftOutIndex | app/routes/stats.tsx:94-112 | a row not among the first n of a permutation sits at a position past n |
| Query.DistinctCardinality | app/routes/stats.tsx:67-70 | a list without repeats has as many distinct values as elements |
| Query.TallySize | app/routes/stats.tsx:88-94 | `GROUP BY` makes one group per distinct key |
| Query.TopGroupsFacts | app/routes/stats.tsx:88-103 | `GROUP BY … ORDER BY … LIMIT n`: n groups when more keys occur, all keys otherwise; a key left out ranks after every group kept |
| Query.MoreThanOnce | app/routes/stats.tsx:110 | `HAVING COUNT(*) > 1` keeps exactly the groups with a count above one |
| Query.TotalSort | app/routes/stats.tsx:77-111 | sorting keeps the total count |
| Query.DistinctSort | app/routes/stats.tsx:77-111 | sorting keeps keys distinct |
| Query.SameKeysOfPermutation | app/routes/stats.tsx:105-112 | a permutation of groups has the same keys |
| Query.GroupOrderedFacts | app/routes/stats.tsx:77-103 | grouped and sorted: counts are the number of rows, keys distinct, total the rows, ordered |
| Query.Where | app/routes/stats.tsx:67-108 | `WHERE`: exactly the rows satisfying the condition, in order |
| Query.WhereAppend | app/routes/stats.tsx:67-108 | one more row is kept iff it satisfies the condition |
| Query.WhereCounts | app/routes/stats.tsx:67-108 | a row is kept as often as it occurs when it satisfies the condition, never otherwise |
| Query.HavingFacts | app/routes/stats.tsx:109-110 | the groups left are exactly the keys occurring more than once, each with its number of rows |
| Query.TopRepeatedFacts | app/routes/stats.tsx:109-112 | `HAVING … ORDER BY … LIMIT n` under a total, transitive order: ordered groups of keys occurring more than once, each with its number of rows; exactly n when more keys repeat, all of them otherwise; a repeated key left out ranks after every group kept |
| Query.RepeatedLeftOut | app/routes/stats.tsx:109-112 | a repeated key left out by `LIMIT` ranks after every group kept |
| Schema.FindMovie | app/routes/movie/new.tsx:49-51 | `findUnique({ imdb_id })`: a movie with that `imdb_id`, or none iff there is none |
| Schema.MovieById | app/routes/stats.tsx:105-117 | the movie with that id, or none iff there is none |
| Schema.FindGenre | app/routes/movie/new.tsx:93 | `where: { name }`: a genre with that name, or none iff there is none |
| Schema.GenreById | app/routes/stats.tsx:86 | the genre with that id, or none iff there is none |
| Schema.FindPerson | app/utils/addMovie.server.ts:24-43 | `where: { original_id }`: a person with that id, or none iff there is none |
| Schema.PersonById | app/routes/stats.tsx:90 | the person with that id, or none iff there is none |
| Stats.UniqueMoviesCount | app/routes/stats.tsx:67-74 | `totalUniqueMovies` is the number of distinct movie ids among the user's watches, at most `totalNumberOfMoviesWithRewatches` |
| Stats.UniqueMovies | app/routes/stats.tsx:67-70 | `totalUniqueMovies`: the user's watches with one kept per movie; `Stats.UniqueMoviesCount` states the count |
| Stats.ReduceIsSum | app/routes/stats.tsx:119-122 | the `reduce` fold is the sum of the runtimes of the watches |
| Stats.Reduce | app/routes/stats.tsx:119-122 | the fold over the watches never goes below its starting value; `Stats.ReduceIsSum` states its value |
| Stats.TotalRuntime | app/routes/stats.tsx:114-122 | `totalRuntimeInMinutes`: the fold from 0 over the user's watches; `Stats.ReduceIsSum` and `Stats.WatchAddsRuntime` state its value |
| Stats.WatchAddsRuntime | app/routes/stats.tsx:114-122 | one more watch by the user adds its movie's runtime (a rewatch counts again); another user's adds nothing |
| Stats.Decompose | app/routes/stats.tsx:124-137 | `days*1440 + hours*60 + minutes == total`, `hours < 24`, `minutes < 60` |
| Stats.ExactDecomposeIsDecompose | app/routes/stats.tsx:124-136 | the real-number computation (`/`, `% 1`, `floor`) gives exactly the integer decomposition |
| Stats.DecomposeExamples | app/routes/stats.tsx:124-137 | 0 minutes is 0/0/0; 1500 minutes is 1 day, 1 hour, 0 minutes |
| RuntimeFloat.Steps | app/routes/stats.tsx:124-126 | `days`, `hours` and `minutes` as the loader computes them: each the double its step rounds to, `% 1` exact |
| RuntimeFloat.Shown | app/routes/stats.tsx:133-136 | `Math.floor` of each of the three doubles |
| RuntimeFloat.ThirteenMinutesShowTwelve | app/routes/stats.tsx:124-136 | a total of 13 minutes has a run of the steps, and every run shows 0 days, 0 hours and 12 minutes; the integer breakdown is 13 minutes |
| RuntimeFloat.OneRunFor13 | app/routes/stats.tsx:124-126 | for 13 minutes the three steps have one outcome |
| Stats.AscendingFacts | app/routes/stats.tsx:76-83 | grouped by a number ascending: strictly increasing keys, counts the number of rows, total the rows |
| Stats.RatingsFacts | app/routes/stats.tsx:82-83 | the rating counts are in ascending rating order and sum to the user's number of ratings |
| Stats.YearCountsFacts | app/routes/stats.tsx:76-80 | years ascending; the counts sum to the user's watches and to the number of movies |
| Stats.GenresFacts | app/routes/stats.tsx:85-86 | one group per linked genre name (every such name, no other), by name ascending, each counting the links to a genre of that name; the counts add up to those links |
| Stats.CountThenNameOrder | app/routes/stats.tsx:93 | `ORDER BY count DESC, p.name ASC` is total and transitive |
| Stats.PeopleOrder | app/routes/stats.tsx:92-94 | a per-role list is ordered by count then name, with no person twice |
| Stats.PeopleCounts | app/routes/stats.tsx:88-92 | everyone listed holds the role on a link, as many times as their count |
| Stats.PeopleTop | app/routes/stats.tsx:88-103 | 20 people when more have credits in the role, all of them otherwise; anyone left out ranks after everyone listed |
| Stats.RolePeopleInRole | app/routes/stats.tsx:88-92 | each person counted for a role has a link in that role and the name of their row |
| Stats.RolePeople | app/routes/stats.tsx:88-92 | the inner join of links in a role with their persons: at most one person per link |
| Stats.People | app/routes/stats.tsx:88-103 | one role's list, at most 20 people; `Stats.PeopleFacts` states its contents |
| Stats.Genres | app/routes/stats.tsx:85-86 | the genre counts; `Stats.GenresFacts` states their contents |
| Stats.PeopleFacts | app/routes/stats.tsx:88-103 | the people in the role by count descending then name ascending: 20 of them when more have credits, all of them otherwise; each with their number of links in the role; anyone left out has no more links than anyone listed, and with as many a name not sorting before theirs |
| Stats.RewatchedFacts | app/routes/stats.tsx:105-112 | the user's movies seen more than once, with their counts, most watched first: 21 when more were rewatched, all of them otherwise; a rewatched movie left out has no more watches than any listed |
| Stats.WatchedMovies | app/routes/stats.tsx:105-108 | the inner join of the watches with their movies: at most one movie per watch |
| Stats.Rewatched | app/routes/stats.tsx:105-112 | `rewatchedMovies`, at most 21 rows; `Stats.RewatchedFacts` states its contents |
| Stats.Loader | app/routes/stats.tsx:64-145 | the `stats` the loader returns, field by field; the lemmas above state each field |
| MovieMeta.RatingText | app/utils/movie.ts:21 | the rating part ends with `/10` |
| MovieMeta.Parts | app/utils/movie.ts:10-22 | at most three parts, none iff the record has no release date, no watch date and no rating |
| MovieMeta.Line | app/utils/movie.ts:24 | the parts joined with ` - `; `MovieMeta.Summary`, `EmptyLine` and `LineLength` state its properties |
| MovieMeta.Summary | app/utils/movie.ts:9-25 | the `push`es and `join` give `Join(Parts(m), " - ")` |
| MovieMeta.PartsPresentInOrder | app/utils/movie.ts:12-24 | each part is present iff its field is: release year first, then watch date, then rating last |
| MovieMeta.EmptyLine | app/utils/movie.ts:10-24 | no fields give the empty string; when the formatters never print an empty string, only that does |
| MovieMeta.LineLength | app/utils/movie.ts:24 | the line is the parts plus one separator fewer than parts |
| MovieMeta.OnlyFirstRating | app/utils/movie.ts:20-22 | ratings after the first do not change the line |
| MovieMeta.TestCases | app/utils/movie.test.ts:4-54 | the six expected lines of the tests |
| Login.ValidateUsername | app/routes/login.tsx:7-11 | an error iff the value is not a string of at least 3 UTF-16 code units (JavaScript `length`) |
| Login.ValidatePassword | app/routes/login.tsx:13-17 | an error iff the value is not a string of at least 6 UTF-16 code units |
| Login.RedirectTo | app/routes/login.tsx:39 | the `redirectTo` field when it is truthy, else `/` |
| Login.WellFormed | app/routes/login.tsx:41-46 | `loginType`, `username`, `password` and the redirect target are all strings; `Login.MalformedFormRefused` states what happens otherwise |
| Login.FindUser | app/utils/session.server.ts:11-13 | a user with that name, or none iff there is none |
| Login.LoginUser | app/utils/session.server.ts:10-26 | the user with that name when the password matches its hash, otherwise none |
| Login.UserTable.Create | app/utils/session.server.ts:10-26 | the new user gets the next id and is appended |
| Login.Action | app/routes/login.tsx:34-101 | the action, step by step, answers and changes exactly what `ActionSpec` says, and keeps the invariant |
| Login.ActionSpec | app/routes/login.tsx:34-101 | the action as a function of the user table; `Login.Action` is proved to do it and the lemmas `MalformedFormRefused` to `ActionKeepsValid` state its cases |
| Login.SurrogatePairsCountTwice | app/routes/login.tsx:8 | an emoji and one letter make a 3-unit username, three emoji a 6-unit password; two letters are too short |
| Login.MalformedFormRefused | app/routes/login.tsx:41-50 | a form field that is not a string gives `Form not submitted correctly.` and nothing else happens |
| Login.DefaultRedirect | app/routes/login.tsx:39 | with an empty or missing `redirectTo`, a session redirects to `/` |
| Login.InvalidFieldsRefused | app/routes/login.tsx:52-58 | a short username or password gives the field errors (each iff its check fails) and the fields, without login or register |
| Login.LoginOutcome | app/routes/login.tsx:61-72 | login starts a session for the user iff the name exists and the password matches; otherwise `Username/Password combination is incorrect` |
| Login.RegisterTakenName | app/routes/login.tsx:73-82 | registering a taken name gives the error and creates no user |
| Login.RegisterNewName | app/routes/login.tsx:83-92 | registering a new name creates exactly one user with the next id and the hash, and starts its session |
| Login.UnknownTypeRefused | app/routes/login.tsx:94-99 | another login type gives `Login type invalid` and changes nothing |
| Login.ActionKeepsValid | app/routes/login.tsx:73-93 | ids stay the row positions and names stay unique |
| YearIndex.Year | app/routes/index.tsx:17-19 | the `year` parameter, or the current year when it is absent |
| YearIndex.YearBounds | app/routes/index.tsx:26-27 | `new Date` of the first and the last day of the year, if both are valid; `YearIndex.FourDigitYearBounds` states their values |
| YearIndex.Selected | app/routes/index.tsx:23-29 | `seen: { every: … }`: every watch of the movie lies within the bounds; `YearIndex.UnwatchedMovieSelected` and `MixedYearsNotSelected` state its edge cases |
| YearIndex.Filtered | app/routes/index.tsx:21-32 | the movies the filter selects; `YearIndex.FilteredAscending` states their order |
| YearIndex.Loader | app/routes/index.tsx:16-45 | the loader's data, or none for an Invalid Date; `YearIndex.FourDigitYearLoads` and `ListedIffEveryWatchInYear` state its contents |
| YearIndex.ParseDayOfYear | app/routes/index.tsx:26-27 | `new Date('YYYY-MM-DD')` is midnight on that day |
| YearIndex.FourDigitYearBounds | app/routes/index.tsx:26-27 | a four-digit year gives the bounds midnight 1 January and midnight 31 December |
| YearIndex.TwoDigits | app/routes/index.tsx:26-27 | the value of a two-digit field |
| YearIndex.FourDigitYearLoads | app/routes/index.tsx:16-45 | for a four-digit year the loader answers the year, the count and the list, newest first |
| YearIndex.DefaultYear | app/routes/index.tsx:17-19 | without a parameter the page is for the current year |
| YearIndex.CountIsListLength | app/routes/index.tsx:34-41 | `moviesInYear` is the length of `movies` |
| YearIndex.ListedIffEveryWatchInYear | app/routes/index.tsx:21-41 | a movie is listed iff every one of its watches is within the bounds; the list is ordered by id descending |
| YearIndex.StrictlyNewestFirst | app/routes/index.tsx:39 | ids strictly decrease along the list |
| YearIndex.FilteredAscending | app/routes/index.tsx:21-32 | the filtered movies keep their table order |
| YearIndex.UnwatchedMovieSelected | app/routes/index.tsx:23-24 | a movie without watches is selected (`every` over nothing) |
| YearIndex.MixedYearsNotSelected | app/routes/index.tsx:23-28 | a movie watched in the year and in the next one is not selected |
| YearIndex.LateOnNewYearsEveNotSelected | app/routes/index.tsx:27 | a watch on 31 December after midnight is outside the upper bound |
| Search.IsSpace | app/routes/search.tsx:32 | the characters `\s` matches: ECMAScript WhiteSpace and LineTerminator |
| Search.Rewrite | app/routes/search.tsx:32 | `replace(/\s/g, ' & ')`; `Search.RewriteIsSplitJoin`, `RewriteLength` and `RewriteWithoutSpace` state its properties |
| Search.Pieces | app/routes/search.tsx:32 | the query split at whitespace: one piece more than whitespace characters, none holding whitespace |
| Search.RewriteAppend | app/routes/search.tsx:32 | the rewrite works character by character |
| Search.RewriteLength | app/routes/search.tsx:32 | the result is 2 characters longer per whitespace character |
| Search.RewriteWithoutSpace | app/routes/search.tsx:32 | a query without whitespace is unchanged |
| Search.RewriteIsSplitJoin | app/routes/search.tsx:32 | replacing each whitespace character by ` & ` is splitting at whitespace and joining with ` & ` |
| Search.Loader | app/routes/search.tsx:22-39 | the query is the parameter or `''`; the search term is its decoding rewritten; a decoding error fails |
| Search.ActionQuery | app/routes/search.tsx:43 | the form's query, or `''` when missing |
| Search.ActionRedirect | app/routes/search.tsx:41-46 | the redirect is `/search?query=` and the encoded query; an encoding error fails |
| Search.RewriteExample | app/routes/search.tsx:32 | `star wars` becomes `star & wars` |
| Text.NatToString | app/routes/movie/new.tsx:72 | the decimal form of a number: digits, without a leading zero |
| Text.ParseNatToString | app/routes/index.tsx:19 | the decimal form reads back as the number |
| Text.JoinLength | app/utils/movie.ts:24 | `join`: the parts plus a separator between each two |
| Text.Utf16Length | app/routes/login.tsx:8-14 | JavaScript `length`: between one and two units per character, one each when no character needs a surrogate pair |
| Text.StrLeTrans | app/routes/stats.tsx:86-93 | `ORDER BY name` in character-code order is transitive |
| Dates.ParseDateOnly | app/routes/index.tsx:26-27 | `new Date('YYYY-MM-DD')`: a valid date only for that form, at midnight, with a month from 1 to 12 and a day from 1 to 31 |
| Form.Truthy | app/routes/login.tsx:39 | JavaScript truthiness of `form.get`: missing and empty are falsy |
| Form.ToText | app/utils/addMovie.server.ts:53 | `toString()` of a form value |
| Binary64.RoundingUnique | app/routes/stats.tsx:124-126 | round to nearest has one result: an operation on doubles is a function |
| Binary64.Pow2Below | app/routes/stats.tsx:124-126 | powers of two grow by at least a factor of two per step |

## Left out

- The TMDb network calls (`app/models/tmdb.server.ts`) are not part of this model. Their
  answers are the `fetchMovie`, `fetchCredits` and `search` inputs of `NewMovie.Services`, for
  requests that succeed with a JSON body. An answer that parses but lacks the fields the action
  reads is `None`; the action then throws after both requests.
- A catalog request that fails, or whose body is not JSON, is not modelled. `response.json()`
  then throws inside `tmdbFetchMovie` (`app/models/tmdb.server.ts:20`) or `tmdbSearch` (line 13).
  For the movie request (`app/routes/movie/new.tsx:45`) this happens before the credits request
  at line 46, which the model always records (`NewMovie.AddSpec`, `NewMovie.AddFetchesRoute`).
  A failed search (line 35) throws where the model always returns `search`'s results.
- JavaScript `Number(text)` and `new Date(text)` on arbitrary text are uninterpreted
  (`Services.number`, `Services.parseDate`). Only integers are accepted as ratings, because the
  column is an integer. Its 32-bit range is not modelled.
- Catalog release dates go through `Dates.ParseDateOnly`, which reads `YYYY-MM-DD`. It checks
  the month range and that the day is between 1 and 31, but not the length of the month.
  Expanded year forms are not accepted.
- Weekday and timezone handling of `Date` is left out. An instant is calendar fields plus
  milliseconds since midnight.
- `yearFromDate` is not part of this model and `formatDate` (`Intl.DateTimeFormat`) is
  uninterpreted: both are fields of `MovieMeta.Formatters`.
- `decodeURI` and `encodeURI` are uninterpreted. They are `Search.Codec`; `None` is the
  `URIError` they throw.
- The full-text `search` match of Postgres and the ordering of results by release date are not
  modelled. The model covers the search term handed to it.
- bcrypt and the cookie session (`app/utils/session.server.ts`) are left out. Hashing and
  comparing are the `Login.Crypto` input, and a session is the `Session(userId, redirectTo)`
  outcome.
- Login.Action: the `Something went wrong trying to create a new user.` branch
  (`app/routes/login.tsx:85-90`) is not modelled. `register` returns the row that
  `db.user.create` made or throws, so the branch cannot be reached.
- `requireUserId` and `getUser` are left out. The user id is a parameter. For an anonymous
  visitor the statistics page queries `Number(undefined)`, which is NaN; that case is not
  modelled.
- Stats.ExactDecomposeIsDecompose: proves the breakdown equal to the integer one over exact real
  numbers. The source computes in binary64, where the breakdown can show one minute too few
  (see "## Findings"). `RuntimeFloat.Steps` states the binary64 steps for any total, but only
  the 13-minute case is worked out. `Binary64.RoundsTo` leaves ties, and results that round
  onto a power of two, unspecified.
- Stats.NameAsc, Stats.CountThenName, Stats.GenresFacts, Stats.PeopleFacts: names are
  compared by character code (`Text.StrLe`, the "C" collation). `ORDER BY name`
  (`app/routes/stats.tsx:86`, `:93` to `:103`) uses the database's collation, which the source
  does not fix. Under a locale-aware collation the genre order may differ. So may the tie-break
  between people with equal counts, and with it which tied people make the 20.
- Postgres `date_part('year', …)` is taken to be the calendar year of the instant.
- Ids from database sequences are the next row position. Gaps after deletions, and the unique
  constraints checked by the database, are not modelled apart from the invariant
  `Schema.Valid`.
- Two requests adding the same movie at the same time (concurrency) are not modelled. Each
  action runs alone.
- A `movie_genre` row for a genre named twice in one catalog answer is not rejected. The model
  links both, as the nested create would attempt.
- Rendering (JSX), components, and the thin routes `quick-rate`, `friends`, `person`, and the
  root redirect are not part of this model.

## Findings

| source | as written | input that shows it | evidently intended | confidence | as-written member | corrected member |
|---|---|---|---|---|---|---|
| app/routes/stats.tsx:124-136 | `days = total / (24 * 60)`, `hours = (days % 1) * 24` and `minutes = (hours % 1) * 60` in binary64, each shown as `Math.floor` | a total runtime of 13 minutes: 13/1440 rounds down, so the minutes come to the double just below 13 and show as 12 | the integer breakdown: `total / 1440` days, `(total % 1440) / 60` hours, `total % 60` minutes | not executed | RuntimeFloat.ThirteenMinutesShowTwelve | Stats.Decompose |
