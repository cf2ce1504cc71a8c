/** The statistics page's loader (`routes/stats.tsx`): read-only queries over the database for
    one user, the sum of the runtimes of that user's watches, and its breakdown into days, hours
    and minutes. */
module Stats {
  import opened Wrappers
  import opened Text
  import opened Dates
  import opened Query
  import opened Schema

  /** `runtime` in the page's data. */
  datatype Runtime = Runtime(days: int, hours: int, minutes: int, totalRuntimeInMinutes: nat)

  /** `GROUP BY p.name, p.id`. */
  datatype PersonKey = PersonKey(name: string, id: nat)

  /** `GROUP BY m.id`, reported with the movie's title. */
  datatype MovieKey = MovieKey(id: nat, title: string)

  datatype Persons = Persons(cast: seq<Group<PersonKey>>, directors: seq<Group<PersonKey>>,
                             writers: seq<Group<PersonKey>>, producers: seq<Group<PersonKey>>,
                             composers: seq<Group<PersonKey>>)

  /** `stats` in the page's data. */
  datatype Report = Report(totalUniqueMovies: nat, totalNumberOfMoviesWithRewatches: nat,
                           runtime: Runtime, genres: seq<Group<string>>,
                           moviesFromYear: seq<Group<int>>, seenInYear: seq<Group<int>>,
                           ratings: seq<Group<int>>, persons: Persons,
                           rewatchedMovies: seq<Group<MovieKey>>)

  // ---------------------------------------------------------------------------------------
  // The user's rows.

  /** The user's watches, in table order. */
  function UserSeen(t: Tables, userId: int): seq<Seen> {
    Where(t.seen, (s: Seen) => s.userId == userId)
  }

  /** The user's ratings, in table order. */
  function UserRatings(t: Tables, userId: int): seq<Rating> {
    Where(t.rating, (r: Rating) => r.userId == userId)
  }

  function MovieIds(rows: seq<Seen>): (r: seq<nat>)
    ensures |r| == |rows| && forall i :: 0 <= i < |rows| ==> r[i] == rows[i].movieId
  {
    seq(|rows|, i requires 0 <= i < |rows| => rows[i].movieId)
  }

  /** `totalUniqueMovies`: how many of the user's watches remain when only one per movie is
      kept. */
  function UniqueMovies(t: Tables, userId: int): nat {
    |Tally(MovieIds(UserSeen(t, userId)))|
  }

  /** `totalNumberOfMoviesWithRewatches`: the number of the user's watches. */
  function WatchCount(t: Tables, userId: int): nat {
    |UserSeen(t, userId)|
  }

  /** The distinct count is the number of different movies the user has seen, and is at most
      the number of watches. */
  lemma UniqueMoviesCount(t: Tables, userId: int)
    ensures UniqueMovies(t, userId) == |set s | s in UserSeen(t, userId) :: s.movieId|
    ensures UniqueMovies(t, userId) <= WatchCount(t, userId)
  {
    var rows := UserSeen(t, userId);
    var g := Tally(MovieIds(rows));
    var ks := Keys(g);
    DistinctCardinality(ks);
    assert Elements(ks) == (set s | s in rows :: s.movieId) by {
      forall k | k in Elements(ks) ensures k in (set s | s in rows :: s.movieId) {
        var i :| 0 <= i < |rows| && MovieIds(rows)[i] == k;
        assert rows[i] in rows;
      }
      forall s | s in rows ensures s.movieId in ks {
        var i :| 0 <= i < |rows| && rows[i] == s;
        assert MovieIds(rows)[i] == s.movieId;
      }
    }
  }

  // ---------------------------------------------------------------------------------------
  // Runtime.

  /** The runtime of the movie a watch refers to (the foreign key makes it exist). */
  function RuntimeOf(movies: seq<Movie>, id: nat): nat {
    match MovieById(movies, id)
    case Some(m) => m.runtime
    case None => 0
  }

  /** The loader's fold over the user's watches, adding each watched movie's runtime to the
      accumulator. */
  function Reduce(acc: nat, rows: seq<Seen>, movies: seq<Movie>): (r: nat)
    ensures r >= acc
    decreases |rows|
  {
    if rows == [] then acc else Reduce(acc + RuntimeOf(movies, rows[0].movieId), rows[1..], movies)
  }

  /** `totalRuntimeInMinutes`. */
  function TotalRuntime(t: Tables, userId: int): nat {
    Reduce(0, UserSeen(t, userId), t.movie)
  }

  /** The sum of the runtimes of the watched movies, one term per watch. */
  function SumRuntimes(rows: seq<Seen>, movies: seq<Movie>): nat
    decreases |rows|
  {
    if rows == [] then 0
    else SumRuntimes(rows[..|rows| - 1], movies) + RuntimeOf(movies, rows[|rows| - 1].movieId)
  }

  lemma {:induction false} SumRuntimesFront(x: Seen, rows: seq<Seen>, movies: seq<Movie>)
    ensures SumRuntimes([x] + rows, movies) == RuntimeOf(movies, x.movieId) + SumRuntimes(rows, movies)
    decreases |rows|
  {
    if rows != [] {
      var front := rows[..|rows| - 1];
      assert ([x] + rows)[..|rows|] == [x] + front;
      SumRuntimesFront(x, front, movies);
    }
  }

  /** The fold adds every watch's runtime to the start value. */
  lemma {:induction false} ReduceIsSum(acc: nat, rows: seq<Seen>, movies: seq<Movie>)
    ensures Reduce(acc, rows, movies) == acc + SumRuntimes(rows, movies)
    decreases |rows|
  {
    if rows != [] {
      ReduceIsSum(acc + RuntimeOf(movies, rows[0].movieId), rows[1..], movies);
      assert rows == [rows[0]] + rows[1..];
      SumRuntimesFront(rows[0], rows[1..], movies);
    }
  }

  /** The total is the sum over the user's watches, so a rewatch counts again: a new watch
      by the user adds its movie's runtime, and another user's watch adds nothing. */
  lemma WatchAddsRuntime(t: Tables, userId: int, row: Seen)
    ensures TotalRuntime(t.(seen := t.seen + [row]), userId)
            == TotalRuntime(t, userId) + (if row.userId == userId then RuntimeOf(t.movie, row.movieId) else 0)
  {
    var t' := t.(seen := t.seen + [row]);
    WhereAppend(t.seen, row, (s: Seen) => s.userId == userId);
    ReduceIsSum(0, UserSeen(t, userId), t.movie);
    ReduceIsSum(0, UserSeen(t', userId), t.movie);
    var rows := UserSeen(t, userId);
    if row.userId == userId {
      assert UserSeen(t', userId) == rows + [row];
      assert (rows + [row])[..|rows|] == rows;
    } else {
      assert UserSeen(t', userId) == rows;
    }
  }

  /** The breakdown of a number of minutes into whole days, hours and minutes. */
  function Decompose(total: nat): (r: Runtime)
    ensures r.days * 1440 + r.hours * 60 + r.minutes == total
    ensures 0 <= r.days && 0 <= r.hours < 24 && 0 <= r.minutes < 60
    ensures r.totalRuntimeInMinutes == total
  {
    DecomposeArith(total);
    Runtime(total / 1440, (total % 1440) / 60, total % 60, total)
  }

  /** Whole days, then whole hours of the rest of the day, then the minutes left. */
  lemma DecomposeArith(total: nat)
    ensures (total / 1440) * 1440 + ((total % 1440) / 60) * 60 + total % 60 == total
    ensures (total % 1440) / 60 < 24
  {
    var q, r := total / 1440, total % 1440;
    var h, m := r / 60, r % 60;
    assert q * 1440 == (q * 24) * 60;
    assert total == (q * 24 + h) * 60 + m;
  }

  /** The fractional part, `x % 1` for a non-negative `x`. */
  function Frac(x: real): real {
    x - x.Floor as real
  }

  /** The loader's breakdown computed without rounding: days are the total over the minutes in a
      day, hours the fractional part of the days times 24, minutes the fractional part of the
      hours times 60, each reported rounded down. */
  function ExactDecompose(total: nat): Runtime {
    var days := total as real / 1440.0;
    var hours := Frac(days) * 24.0;
    var minutes := Frac(hours) * 60.0;
    Runtime(days.Floor, hours.Floor, minutes.Floor, total)
  }

  /** A number `q + n / d` with an integer `q` and `0 <= n < d` has `q` as its floor and
      `n / d` as its fractional part. */
  lemma FloorOf(q: int, n: nat, d: nat)
    requires n < d
    ensures (q as real + n as real / d as real).Floor == q
    ensures Frac(q as real + n as real / d as real) == n as real / d as real
  {
    assert 0.0 <= n as real / d as real < 1.0;
  }

  /** Dividing `q * d + n` by `d` gives `q` and a fraction `n / d`. */
  lemma DivideSplit(q: nat, n: nat, d: nat)
    requires 0 < d
    ensures (q * d + n) as real / d as real == q as real + n as real / d as real
  {
  }

  /** A fraction of a day, in hours. */
  lemma DayFractionInHours(r: nat)
    ensures r as real / 1440.0 * 24.0 == r as real / 60.0
  {
  }

  /** The days of the breakdown and the fraction of a day left. */
  lemma DaysPart(total: nat)
    ensures (total as real / 1440.0).Floor == total / 1440
    ensures Frac(total as real / 1440.0) == (total % 1440) as real / 1440.0
  {
    var q, r := total / 1440, total % 1440;
    assert total == q * 1440 + r;
    DivideSplit(q, r, 1440);
    FloorOf(q, r, 1440);
  }

  /** The hours in a fraction `r / 1440` of a day and the fraction of an hour left. */
  lemma HoursPart(r: nat)
    requires r < 1440
    ensures (r as real / 1440.0 * 24.0).Floor == r / 60
    ensures Frac(r as real / 1440.0 * 24.0) == (r % 60) as real / 60.0
  {
    var h, m := r / 60, r % 60;
    DayFractionInHours(r);
    assert r == h * 60 + m;
    DivideSplit(h, m, 60);
    FloorOf(h, m, 60);
  }

  /** Without rounding, the page's arithmetic is the integer breakdown. */
  lemma ExactDecomposeIsDecompose(total: nat)
    ensures ExactDecompose(total) == Decompose(total)
  {
    var r := total % 1440;
    assert total % 60 == r % 60 by {
      assert total == (total / 1440 * 24) * 60 + r;
    }
    DaysPart(total);
    HoursPart(r);
    var minutes := Frac(Frac(total as real / 1440.0) * 24.0) * 60.0;
    assert minutes == (r % 60) as real;
  }

  lemma DecomposeExamples()
    ensures Decompose(0) == Runtime(0, 0, 0, 0)
    ensures Decompose(1500) == Runtime(1, 1, 0, 1500)
  {
  }

  // ---------------------------------------------------------------------------------------
  // The grouping queries.

  /** `ORDER BY <key> ASC` on a numeric key. */
  predicate KeyAsc(a: Group<int>, b: Group<int>) {
    a.key <= b.key
  }

  /** `ORDER BY name ASC`. */
  predicate NameAsc(a: Group<string>, b: Group<string>) {
    StrLe(a.key, b.key)
  }

  /** `ORDER BY count DESC, p.name ASC`. */
  predicate CountThenName(a: Group<PersonKey>, b: Group<PersonKey>) {
    a.count > b.count || (a.count == b.count && StrLe(a.key.name, b.key.name))
  }

  /** `ORDER BY count DESC`. */
  predicate CountDesc(a: Group<MovieKey>, b: Group<MovieKey>) {
    a.count >= b.count
  }

  function ReleaseYears(movies: seq<Movie>): seq<int> {
    seq(|movies|, i requires 0 <= i < |movies| => movies[i].releaseDate.year)
  }

  function SeenYears(rows: seq<Seen>): seq<int> {
    seq(|rows|, i requires 0 <= i < |rows| => rows[i].date.year)
  }

  function RatingValues(rows: seq<Rating>): seq<int> {
    seq(|rows|, i requires 0 <= i < |rows| => rows[i].rating)
  }

  /** `moviesFromYear`: all movies by release year, ascending. */
  function MoviesFromYear(t: Tables): seq<Group<int>> {
    GroupOrdered(ReleaseYears(t.movie), KeyAsc)
  }

  /** `seenInYear`: the user's watches by year, ascending. */
  function SeenInYear(t: Tables, userId: int): seq<Group<int>> {
    GroupOrdered(SeenYears(UserSeen(t, userId)), KeyAsc)
  }

  /** `ratings`: the user's ratings by value, ascending. */
  function Ratings(t: Tables, userId: int): seq<Group<int>> {
    GroupOrdered(RatingValues(UserRatings(t, userId)), KeyAsc)
  }

  /** `movie_genre INNER JOIN genre`: the genre name of every link. */
  function LinkedGenreNames(links: seq<MovieGenre>, genres: seq<Genre>): seq<string>
    decreases |links|
  {
    if links == [] then []
    else
      (match GenreById(genres, links[0].genreId)
       case Some(g) => [g.name]
       case None => [])
      + LinkedGenreNames(links[1..], genres)
  }

  /** `genres`: the links per genre name, by name. */
  function Genres(t: Tables): seq<Group<string>> {
    GroupOrdered(LinkedGenreNames(t.movieGenre, t.genre), NameAsc)
  }

  /** `movie_person INNER JOIN person WHERE job = ...`: the person of every link in the role. */
  function RolePeople(links: seq<MoviePerson>, persons: seq<Person>, job: Job): (r: seq<PersonKey>)
    ensures |r| <= |links|
    decreases |links|
  {
    if links == [] then []
    else
      (if links[0].job != job then []
       else match PersonById(persons, links[0].personId)
            case Some(p) => [PersonKey(p.name, p.id)]
            case None => [])
      + RolePeople(links[1..], persons, job)
  }

  /** One per-role list: the 20 people with the most credits in the role. */
  function People(t: Tables, job: Job): (r: seq<Group<PersonKey>>)
    ensures |r| <= 20
  {
    Limit(GroupOrdered(RolePeople(t.moviePerson, t.person, job), CountThenName), 20)
  }

  /** `seen INNER JOIN movie`: the movie of every watch. */
  function WatchedMovies(rows: seq<Seen>, movies: seq<Movie>): (r: seq<MovieKey>)
    ensures |r| <= |rows|
    decreases |rows|
  {
    if rows == [] then []
    else
      (match MovieById(movies, rows[0].movieId)
       case Some(m) => [MovieKey(m.id, m.title)]
       case None => [])
      + WatchedMovies(rows[1..], movies)
  }

  /** `rewatchedMovies`: the user's movies seen more than once, most watched first, at most
      21. */
  function Rewatched(t: Tables, userId: int): (r: seq<Group<MovieKey>>)
    ensures |r| <= 21
  {
    Limit(Sort(MoreThanOnce(Tally(WatchedMovies(UserSeen(t, userId), t.movie))), CountDesc), 21)
  }

  /** The loader's `stats`. */
  function Loader(t: Tables, userId: int): Report {
    Report(UniqueMovies(t, userId), WatchCount(t, userId), Decompose(TotalRuntime(t, userId)),
           Genres(t), MoviesFromYear(t), SeenInYear(t, userId), Ratings(t, userId),
           Persons(People(t, Cast), People(t, Director), People(t, Writer), People(t, Producer),
                   People(t, Composer)),
           Rewatched(t, userId))
  }

  // ---------------------------------------------------------------------------------------
  // What the reports say.

  /** Groups by a numeric key ascending, with distinct keys: the keys strictly increase, every
      value is reported with its number of rows, and the counts add up to the rows. */
  lemma AscendingFacts(s: seq<int>)
    ensures var r := GroupOrdered(s, KeyAsc);
      && (forall i :: 0 < i < |r| ==> r[i - 1].key < r[i].key)
      && (forall i :: 0 <= i < |r| ==> r[i].count == multiset(s)[r[i].key])
      && (forall v :: v in Keys(r) <==> v in s)
      && Total(r) == |s|
  {
    GroupOrderedFacts(s, KeyAsc);
    assert Connected(KeyAsc);
  }

  /** The per-rating counts go up by rating, count the user's rating rows with that value, and
      add up to the user's number of ratings. */
  lemma RatingsFacts(t: Tables, userId: int)
    ensures var r := Ratings(t, userId);
      && (forall i :: 0 < i < |r| ==> r[i - 1].key < r[i].key)
      && (forall i :: 0 <= i < |r| ==>
            r[i].count == multiset(RatingValues(UserRatings(t, userId)))[r[i].key])
      && Total(r) == |UserRatings(t, userId)|
  {
    AscendingFacts(RatingValues(UserRatings(t, userId)));
  }

  /** Both year reports go up by year; the watch counts add up to the user's watches and the
      release counts to all movies. */
  lemma YearCountsFacts(t: Tables, userId: int)
    ensures var r := SeenInYear(t, userId);
      (forall i :: 0 < i < |r| ==> r[i - 1].key < r[i].key) && Total(r) == WatchCount(t, userId)
    ensures var r := MoviesFromYear(t);
      (forall i :: 0 < i < |r| ==> r[i - 1].key < r[i].key) && Total(r) == |t.movie|
  {
    AscendingFacts(SeenYears(UserSeen(t, userId)));
    AscendingFacts(ReleaseYears(t.movie));
  }

  /** The genre report is in name order with one row per linked genre name, counting its
      links: every linked name is reported, and the counts add up to the links. */
  lemma GenresFacts(t: Tables)
    ensures var names := LinkedGenreNames(t.movieGenre, t.genre);
      var r := Genres(t);
      && Ordered(r, NameAsc) && DistinctKeys(r)
      && (forall i :: 0 <= i < |r| ==> r[i].count == multiset(names)[r[i].key])
      && (forall k :: k in Keys(r) <==> k in names)
      && Total(r) == |names|
  {
    GroupOrderedFacts(LinkedGenreNames(t.movieGenre, t.genre), NameAsc);
    forall a: Group<string>, b: Group<string> ensures NameAsc(a, b) || NameAsc(b, a) {
      StrLeTotal(a.key, b.key);
    }
  }

  /** The people order is a total preorder. */
  lemma CountThenNameOrder()
    ensures Connected(CountThenName) && Transitive(CountThenName)
  {
    forall a: Group<PersonKey>, b: Group<PersonKey> ensures CountThenName(a, b) || CountThenName(b, a) {
      StrLeTotal(a.key.name, b.key.name);
    }
    forall a: Group<PersonKey>, b: Group<PersonKey>, c: Group<PersonKey> | CountThenName(a, b) && CountThenName(b, c)
      ensures CountThenName(a, c)
    {
      if a.count == b.count == c.count {
        StrLeTrans(a.key.name, b.key.name, c.key.name);
      }
    }
  }

  /** Every person the join reports in a role holds that role on some link, and is the
      person row with that id. */
  lemma {:induction false} RolePeopleInRole(links: seq<MoviePerson>, persons: seq<Person>, job: Job, k: PersonKey)
    requires k in RolePeople(links, persons, job)
    ensures exists l :: l in links && l.job == job && l.personId == k.id
    ensures PersonById(persons, k.id).Some? && PersonById(persons, k.id).value.name == k.name
    decreases |links|
  {
    var head := if links[0].job != job then []
                else match PersonById(persons, links[0].personId)
                     case Some(p) => [PersonKey(p.name, p.id)]
                     case None => [];
    if k in head {
      assert links[0] in links;
    } else {
      RolePeopleInRole(links[1..], persons, job, k);
      var l :| l in links[1..] && l.job == job && l.personId == k.id;
      assert l in links;
    }
  }

  /** A per-role list holds only people credited in that role, with their number of credits
      in it, most credited first and then by name: the top 20, or everyone credited in the role
      when there are no more than 20; anyone left out has no more credits than anyone listed,
      and with as many, a name that does not sort before theirs. */
  lemma PeopleFacts(t: Tables, job: Job)
    ensures var s := RolePeople(t.moviePerson, t.person, job);
      var r := People(t, job);
      && Ordered(r, CountThenName) && DistinctKeys(r)
      && |r| == (if |Elements(s)| <= 20 then |Elements(s)| else 20)
      && (forall i :: 0 <= i < |r| ==>
            && r[i].count == multiset(s)[r[i].key]
            && exists l :: l in t.moviePerson && l.job == job && l.personId == r[i].key.id)
      && (|Elements(s)| <= 20 ==> forall k :: k in Keys(r) <==> k in s)
      && (forall k, j :: k in s && k !in Keys(r) && 0 <= j < |r| ==>
            CountThenName(r[j], Group(k, multiset(s)[k])))
  {
    PeopleOrder(t, job);
    PeopleCounts(t, job);
    PeopleTop(t, job);
  }

  /** A per-role list is in `CountThenName` order with no person twice. */
  lemma PeopleOrder(t: Tables, job: Job)
    ensures var r := People(t, job); Ordered(r, CountThenName) && DistinctKeys(r)
  {
    var s := RolePeople(t.moviePerson, t.person, job);
    var all := GroupOrdered(s, CountThenName);
    var r := People(t, job);
    GroupOrderedFacts(s, CountThenName);
    assert Connected(CountThenName) by {
      CountThenNameOrder();
    }
    LimitOrdered(all, 20, CountThenName);
    forall i, j | 0 <= i < j < |r| ensures r[i].key != r[j].key {
      assert r[i] == all[i] && r[j] == all[j];
    }
  }

  /** Everyone on a per-role list holds the role on a link, as often as the count says. */
  lemma PeopleCounts(t: Tables, job: Job)
    ensures var s := RolePeople(t.moviePerson, t.person, job);
      var r := People(t, job);
      forall i :: 0 <= i < |r| ==>
        && r[i].count == multiset(s)[r[i].key]
        && exists l :: l in t.moviePerson && l.job == job && l.personId == r[i].key.id
  {
    var s := RolePeople(t.moviePerson, t.person, job);
    var all := GroupOrdered(s, CountThenName);
    var r := People(t, job);
    GroupOrderedFacts(s, CountThenName);
    forall i | 0 <= i < |r|
      ensures && r[i].count == multiset(s)[r[i].key]
              && exists l :: l in t.moviePerson && l.job == job && l.personId == r[i].key.id
    {
      assert r[i] == all[i];
      assert r[i].key in Keys(all);
      RolePeopleInRole(t.moviePerson, t.person, job, r[i].key);
    }
  }

  /** Which people a per-role list keeps: the top 20 by `CountThenName`, or all of them. */
  lemma PeopleTop(t: Tables, job: Job)
    ensures var s := RolePeople(t.moviePerson, t.person, job);
      var r := People(t, job);
      && |r| == (if |Elements(s)| <= 20 then |Elements(s)| else 20)
      && (|Elements(s)| <= 20 ==> forall k :: k in Keys(r) <==> k in s)
      && (forall k, j :: k in s && k !in Keys(r) && 0 <= j < |r| ==>
            CountThenName(r[j], Group(k, multiset(s)[k])))
  {
    CountThenNameOrder();
    TopGroupsFacts(RolePeople(t.moviePerson, t.person, job), CountThenName, 20, People(t, job));
  }

  /** The rewatch list holds only movies the user saw more than once, each with the number of
      its watches, most watched first: the 21 most watched, or all of them when there are no
      more than 21; a rewatched movie left out has no more watches than any movie listed. */
  lemma RewatchedFacts(t: Tables, userId: int)
    ensures var s := WatchedMovies(UserSeen(t, userId), t.movie);
      var r := Rewatched(t, userId);
      && |r| <= 21 && Ordered(r, CountDesc)
      && (|MoreThanOnce(Tally(s))| > 21 ==> |r| == 21)
      && (forall i :: 0 <= i < |r| ==> r[i].count == multiset(s)[r[i].key] > 1)
      && (|MoreThanOnce(Tally(s))| <= 21 ==> forall k :: k in Keys(r) <==> multiset(s)[k] > 1)
      && (forall k, j :: multiset(s)[k] > 1 && k !in Keys(r) && 0 <= j < |r| ==> r[j].count >= multiset(s)[k])
  {
    assert Connected(CountDesc) && Transitive(CountDesc);
    TopRepeatedFacts(WatchedMovies(UserSeen(t, userId), t.movie), CountDesc, 21, Rewatched(t, userId));
  }
}
