/** The add-movie page's action (`routes/movie/new.tsx`): either a catalog search, or adding a
    watch of a movie fetched from the catalog, creating the movie first when it is new. */
module NewMovie {
  import opened Wrappers
  import opened Text
  import opened Dates
  import opened Schema
  import Form
  import AddMovie

  /** A movie record as the catalog's movie endpoint returns it. */
  datatype CatalogMovie = CatalogMovie(imdbId: string, title: string, overview: string,
                                       runtime: nat, posterPath: Option<string>,
                                       releaseDate: string, tagline: string,
                                       genres: seq<string>)

  /** The catalog's credits record for a movie. */
  datatype CatalogCredits = CatalogCredits(cast: seq<AddMovie.CastMember>,
                                           crew: seq<AddMovie.CrewMember>)

  /** One search result (`TMDbMovie`). */
  datatype SearchHit = SearchHit(title: string, id: string, posterPath: Option<string>)

  /** Everything the action consults besides the database and the form. `fetchMovie` and
      `fetchCredits` are the catalog's answers per route, for a request that succeeds with a
      JSON body (`None`: the body lacks the fields the action reads, which makes it throw after
      both requests); `search` is the results of a search that succeeds with a JSON body;
      `number` is `Number(text)` for a non-empty text when
      that is an integer; `parseDate` is `new Date(text)` (`None`: an Invalid Date); `now` is the
      request's current time. */
  datatype Services = Services(search: string -> seq<SearchHit>,
                               fetchMovie: string -> Option<CatalogMovie>,
                               fetchCredits: string -> Option<CatalogCredits>,
                               number: string -> Option<int>,
                               parseDate: string -> Option<Instant>,
                               now: Instant)

  /** A request sent to the catalog. */
  datatype Request = SearchRequest(query: string) | MovieRequest(route: string)

  /** What the action answers; `Failed` is a thrown error, `NoResponse` is `undefined`. */
  datatype Response =
    | BadRequest(message: string)
    | SearchResults(results: seq<SearchHit>)
    | Redirect(location: string)
    | Failed
    | NoResponse

  /** The database after the action, its answer, and the catalog requests it made in order. */
  datatype Step = Step(tables: Tables, response: Response, requests: seq<Request>)

  /** The rows a nested `connectOrCreate` leaves in the connected table, and the link rows. */
  datatype Linked<R, L> = Linked(rows: seq<R>, links: seq<L>)

  // ---------------------------------------------------------------------------------------
  // Reading the form.

  /** `Number(form.get('rating'))` when it is an integer, the only kind of value the `rating`
      column takes: `Number(null)` and `Number('')` are 0 and a file is NaN. */
  function RatingValue(v: Option<Form.Entry>, env: Services): (r: Option<int>)
    ensures v.None? ==> r == Some(0)
  {
    match v
    case None => Some(0)
    case Some(e) =>
      if e.Upload? then None else if e.text == "" then Some(0) else env.number(e.text)
  }

  /** The watch date: the submitted `date` when it is truthy, otherwise now. */
  function WatchDate(form: Form.Submission, env: Services): Option<Instant> {
    var v := Form.Get(form, "date");
    if Form.Truthy(v) then env.parseDate(Form.ToText(v.value)) else Some(env.now)
  }

  /** `${id}` in a template literal: an absent id prints as `undefined`. */
  function IdSegment(id: Option<string>): string {
    id.GetOr("undefined")
  }

  /** The catalog route the add branch fetches: `/${imdbId(form.get('movieId'))}`. */
  function MovieRoute(form: Form.Submission): string {
    "/" + IdSegment(AddMovie.ImdbId(Form.Get(form, "movieId")))
  }

  /** `/movie/${id}`. */
  function MovieLocation(id: nat): string {
    "/movie/" + NatToString(id)
  }

  // ---------------------------------------------------------------------------------------
  // The nested `create` of a new movie.

  /** One element of `movie_genre: { create: genres.map(...) }`: the genre with that name is
      connected, or created with the next id when there is none. */
  function LinkGenre(prev: Linked<Genre, MovieGenre>, movieId: nat, name: string)
    : Linked<Genre, MovieGenre>
  {
    match FindGenre(prev.rows, name)
    case Some(g) => Linked(prev.rows, prev.links + [MovieGenre(movieId, g.id)])
    case None =>
      var id := |prev.rows| + 1;
      Linked(prev.rows + [Genre(id, name)], prev.links + [MovieGenre(movieId, id)])
  }

  /** The genres of a new movie, connected one after the other. */
  function ConnectGenres(genres: seq<Genre>, movieId: nat, names: seq<string>)
    : (r: Linked<Genre, MovieGenre>)
    ensures |r.links| == |names|
    decreases |names|
  {
    if names == [] then Linked(genres, [])
    else LinkGenre(ConnectGenres(genres, movieId, names[..|names| - 1]), movieId, names[|names| - 1])
  }

  /** One element of `movie_person: { create: persons }`: the person with the credit's
      `where.original_id` is connected, or created from the credit's `create` data. */
  function LinkPerson(prev: Linked<Person, MoviePerson>, movieId: nat, c: AddMovie.Credit)
    : Linked<Person, MoviePerson>
  {
    match FindPerson(prev.rows, c.person.where.originalId)
    case Some(p) => Linked(prev.rows, prev.links + [MoviePerson(movieId, p.id, c.job)])
    case None =>
      var id := |prev.rows| + 1;
      Linked(prev.rows + [Person(id, c.person.create.name, c.person.create.originalId)],
             prev.links + [MoviePerson(movieId, id, c.job)])
  }

  /** The credits of a new movie, connected one after the other. */
  function ConnectPersons(persons: seq<Person>, movieId: nat, credits: seq<AddMovie.Credit>)
    : (r: Linked<Person, MoviePerson>)
    ensures |r.links| == |credits|
    decreases |credits|
  {
    if credits == [] then Linked(persons, [])
    else LinkPerson(ConnectPersons(persons, movieId, credits[..|credits| - 1]), movieId,
                    credits[|credits| - 1])
  }

  /** Every credit's `create` and `where` name the same `original_id`. */
  predicate SameKeys(credits: seq<AddMovie.Credit>) {
    forall i :: 0 <= i < |credits| ==>
      credits[i].person.create.originalId == credits[i].person.where.originalId
  }

  /** One connect-or-create keeps the genre rows and their ids in order, and adds at most one
      row and exactly one link. */
  lemma LinkGenreGrows(prev: Linked<Genre, MovieGenre>, movieId: nat, name: string)
    requires GenreIdsInOrder(prev.rows)
    ensures var r := LinkGenre(prev, movieId, name);
      && GenreIdsInOrder(r.rows)
      && |prev.rows| <= |r.rows| <= |prev.rows| + 1 && r.rows[..|prev.rows|] == prev.rows
      && |r.links| == |prev.links| + 1 && r.links[..|prev.links|] == prev.links
  {
  }

  /** The link one connect-or-create adds points at a genre with that name. */
  lemma LinkGenreTarget(prev: Linked<Genre, MovieGenre>, movieId: nat, name: string)
    requires GenreIdsInOrder(prev.rows)
    ensures var r := LinkGenre(prev, movieId, name);
      && |r.links| == |prev.links| + 1
      && r.links[|prev.links|].movieId == movieId
      && 1 <= r.links[|prev.links|].genreId <= |r.rows|
      && r.rows[r.links[|prev.links|].genreId - 1].name == name
  {
    match FindGenre(prev.rows, name)
    case Some(g) =>
      var k :| 0 <= k < |prev.rows| && prev.rows[k] == g;
    case None =>
  }

  /** A genre row one connect-or-create adds has that name, and no genre had it before. */
  lemma LinkGenreNew(prev: Linked<Genre, MovieGenre>, movieId: nat, name: string)
    ensures var r := LinkGenre(prev, movieId, name);
      |r.rows| > |prev.rows| ==> r.rows[|prev.rows|].name == name && FindGenre(prev.rows, name).None?
  {
  }

  /** One connect-or-create keeps genre names unique. */
  lemma LinkGenreUnique(prev: Linked<Genre, MovieGenre>, movieId: nat, name: string)
    requires GenreNamesUnique(prev.rows)
    ensures GenreNamesUnique(LinkGenre(prev, movieId, name).rows)
  {
  }

  /** One connect-or-create keeps the person rows and their ids in order, and adds at most one
      row and exactly one link. */
  lemma LinkPersonGrows(prev: Linked<Person, MoviePerson>, movieId: nat, c: AddMovie.Credit)
    requires PersonIdsInOrder(prev.rows)
    ensures var r := LinkPerson(prev, movieId, c);
      && PersonIdsInOrder(r.rows)
      && |prev.rows| <= |r.rows| <= |prev.rows| + 1 && r.rows[..|prev.rows|] == prev.rows
      && |r.links| == |prev.links| + 1 && r.links[..|prev.links|] == prev.links
  {
  }

  /** The link one connect-or-create adds points at the person with the credit's
      `original_id`. */
  lemma LinkPersonTarget(prev: Linked<Person, MoviePerson>, movieId: nat, c: AddMovie.Credit)
    requires PersonIdsInOrder(prev.rows)
    requires c.person.create.originalId == c.person.where.originalId
    ensures var r := LinkPerson(prev, movieId, c);
      && |r.links| == |prev.links| + 1
      && 1 <= r.links[|prev.links|].personId <= |r.rows|
      && r.rows[r.links[|prev.links|].personId - 1].originalId == c.person.where.originalId
  {
    match FindPerson(prev.rows, c.person.where.originalId)
    case Some(p) =>
      var k :| 0 <= k < |prev.rows| && prev.rows[k] == p;
    case None =>
  }

  /** A person row one connect-or-create adds carries the credit's name and `original_id`,
      and no person had that `original_id` before. */
  lemma LinkPersonNew(prev: Linked<Person, MoviePerson>, movieId: nat, c: AddMovie.Credit)
    requires c.person.create.originalId == c.person.where.originalId
    ensures var r := LinkPerson(prev, movieId, c);
      |r.rows| > |prev.rows| ==>
        && r.rows[|prev.rows|].name == c.person.create.name
        && r.rows[|prev.rows|].originalId == c.person.where.originalId
        && FindPerson(prev.rows, c.person.where.originalId).None?
  {
  }

  /** One connect-or-create keeps `original_id` unique. */
  lemma LinkPersonUnique(prev: Linked<Person, MoviePerson>, movieId: nat, c: AddMovie.Credit)
    requires OriginalIdsUnique(prev.rows)
    requires c.person.create.originalId == c.person.where.originalId
    ensures OriginalIdsUnique(LinkPerson(prev, movieId, c).rows)
  {
  }

  /** Connecting genres keeps the existing rows, and ids stay in order. */
  lemma {:induction false} ConnectGenresIds(genres: seq<Genre>, movieId: nat, names: seq<string>)
    requires GenreIdsInOrder(genres)
    ensures var r := ConnectGenres(genres, movieId, names);
      GenreIdsInOrder(r.rows) && |genres| <= |r.rows| && r.rows[..|genres|] == genres
    decreases |names|
  {
    if names != [] {
      var front := names[..|names| - 1];
      ConnectGenresIds(genres, movieId, front);
      LinkGenreGrows(ConnectGenres(genres, movieId, front), movieId, names[|names| - 1]);
    }
  }

  /** Connecting genres keeps genre names unique. */
  lemma {:induction false} ConnectGenresUnique(genres: seq<Genre>, movieId: nat, names: seq<string>)
    requires GenreNamesUnique(genres)
    ensures GenreNamesUnique(ConnectGenres(genres, movieId, names).rows)
    decreases |names|
  {
    if names != [] {
      var front := names[..|names| - 1];
      ConnectGenresUnique(genres, movieId, front);
      LinkGenreUnique(ConnectGenres(genres, movieId, front), movieId, names[|names| - 1]);
    }
  }

  /** Connecting genres creates a genre only for a listed name that no existing genre has. */
  lemma {:induction false} ConnectGenresRows(genres: seq<Genre>, movieId: nat, names: seq<string>)
    requires GenreIdsInOrder(genres)
    ensures var r := ConnectGenres(genres, movieId, names);
      forall j :: |genres| <= j < |r.rows| ==>
        r.rows[j].name in names && FindGenre(genres, r.rows[j].name).None?
    decreases |names|
  {
    if names != [] {
      var front := names[..|names| - 1];
      var prev := ConnectGenres(genres, movieId, front);
      ConnectGenresRows(genres, movieId, front);
      ConnectGenresIds(genres, movieId, front);
      LinkGenreGrows(prev, movieId, names[|names| - 1]);
      LinkGenreNew(prev, movieId, names[|names| - 1]);
      var r := ConnectGenres(genres, movieId, names);
      forall j | |genres| <= j < |r.rows|
        ensures r.rows[j].name in names && FindGenre(genres, r.rows[j].name).None?
      {
        if j < |prev.rows| {
          assert r.rows[j] == prev.rows[j];
          assert r.rows[j].name in front;
        } else {
          forall x | x in genres ensures x.name != r.rows[j].name {
            var k :| 0 <= k < |genres| && genres[k] == x;
            assert prev.rows[k] == x;
          }
        }
      }
    }
  }

  /** Connecting genres links every listed name, in order, to a genre with that name. */
  lemma ConnectGenresLinks(genres: seq<Genre>, movieId: nat, names: seq<string>)
    requires GenreIdsInOrder(genres)
    ensures var r := ConnectGenres(genres, movieId, names);
      forall i :: 0 <= i < |names| ==>
        && 1 <= r.links[i].genreId <= |r.rows|
        && r.rows[r.links[i].genreId - 1].name == names[i]
  {
    forall i | 0 <= i < |names| {
      GenreLinkAt(genres, movieId, names, i);
    }
  }

  /** The `i`-th link made for the names points at a genre with the `i`-th name. */
  lemma {:induction false} GenreLinkAt(genres: seq<Genre>, movieId: nat, names: seq<string>, i: nat)
    requires GenreIdsInOrder(genres) && i < |names|
    ensures var r := ConnectGenres(genres, movieId, names);
      1 <= r.links[i].genreId <= |r.rows| && r.rows[r.links[i].genreId - 1].name == names[i]
    decreases |names|
  {
    var front := names[..|names| - 1];
    var prev := ConnectGenres(genres, movieId, front);
    ConnectGenresIds(genres, movieId, front);
    var r := LinkGenre(prev, movieId, names[|names| - 1]);
    if i == |front| {
      LinkGenreTarget(prev, movieId, names[|names| - 1]);
    } else {
      GenreLinkAt(genres, movieId, front, i);
      LinkGenreGrows(prev, movieId, names[|names| - 1]);
      GenreLinkKept(prev, r, i);
      assert front[i] == names[i];
    }
  }

  /** Connecting genres adds one link per name, in order, all for the new movie. */
  lemma {:induction false} ConnectGenresMovie(genres: seq<Genre>, movieId: nat, names: seq<string>)
    ensures forall i :: 0 <= i < |names| ==> ConnectGenres(genres, movieId, names).links[i].movieId == movieId
    decreases |names|
  {
    if names != [] {
      var front := names[..|names| - 1];
      var prev := ConnectGenres(genres, movieId, front);
      ConnectGenresMovie(genres, movieId, front);
      var r := ConnectGenres(genres, movieId, names);
      assert r.links == prev.links + [MovieGenre(movieId, r.links[|front|].genreId)];
      forall i | 0 <= i < |front| ensures r.links[i].movieId == movieId {
        assert r.links[i] == prev.links[i];
        assert prev.links[i].movieId == movieId;
      }
    }
  }

  /** A link made before a connect-or-create still points at the same genre row. */
  lemma GenreLinkKept(prev: Linked<Genre, MovieGenre>, r: Linked<Genre, MovieGenre>, i: nat)
    requires |prev.rows| <= |r.rows| && r.rows[..|prev.rows|] == prev.rows
    requires |r.links| == |prev.links| + 1 && r.links[..|prev.links|] == prev.links
    requires i < |prev.links| && 1 <= prev.links[i].genreId <= |prev.rows|
    ensures r.links[i] == prev.links[i]
    ensures r.rows[r.links[i].genreId - 1] == prev.rows[prev.links[i].genreId - 1]
  {
    assert r.links[i] == r.links[..|prev.links|][i];
    var gid := prev.links[i].genreId;
    assert r.rows[gid - 1] == r.rows[..|prev.rows|][gid - 1];
  }

  /** A name some existing genre already has is linked to that genre. */
  lemma GenreReused(genres: seq<Genre>, movieId: nat, names: seq<string>, i: nat)
    requires GenresValid(genres) && i < |names| && FindGenre(genres, names[i]).Some?
    ensures ConnectGenres(genres, movieId, names).links[i].genreId
            == FindGenre(genres, names[i]).value.id
  {
    ConnectGenresIds(genres, movieId, names);
    ConnectGenresUnique(genres, movieId, names);
    ConnectGenresLinks(genres, movieId, names);
    var r := ConnectGenres(genres, movieId, names);
    var g := FindGenre(genres, names[i]).value;
    var k :| 0 <= k < |genres| && genres[k] == g;
    assert r.rows[k] == g;
  }

  /** Connecting persons keeps the existing rows, and ids stay in order. */
  lemma {:induction false} ConnectPersonsIds(persons: seq<Person>, movieId: nat,
                                             credits: seq<AddMovie.Credit>)
    requires PersonIdsInOrder(persons)
    ensures var r := ConnectPersons(persons, movieId, credits);
      PersonIdsInOrder(r.rows) && |persons| <= |r.rows| && r.rows[..|persons|] == persons
    decreases |credits|
  {
    if credits != [] {
      var front := credits[..|credits| - 1];
      ConnectPersonsIds(persons, movieId, front);
      LinkPersonGrows(ConnectPersons(persons, movieId, front), movieId, credits[|credits| - 1]);
    }
  }

  /** Connecting persons keeps `original_id` unique. */
  lemma {:induction false} ConnectPersonsUnique(persons: seq<Person>, movieId: nat,
                                                credits: seq<AddMovie.Credit>)
    requires OriginalIdsUnique(persons) && SameKeys(credits)
    ensures OriginalIdsUnique(ConnectPersons(persons, movieId, credits).rows)
    decreases |credits|
  {
    if credits != [] {
      var front := credits[..|credits| - 1];
      assert forall i :: 0 <= i < |front| ==> front[i] == credits[i];
      ConnectPersonsUnique(persons, movieId, front);
      LinkPersonUnique(ConnectPersons(persons, movieId, front), movieId, credits[|credits| - 1]);
    }
  }

  /** Connecting persons creates a person only for an `original_id` no existing person has,
      with the name of a credit carrying that `original_id`. */
  lemma {:induction false} ConnectPersonsRows(persons: seq<Person>, movieId: nat,
                                              credits: seq<AddMovie.Credit>)
    requires PersonIdsInOrder(persons) && SameKeys(credits)
    ensures var r := ConnectPersons(persons, movieId, credits);
      forall j :: |persons| <= j < |r.rows| ==>
        && FindPerson(persons, r.rows[j].originalId).None?
        && exists i :: 0 <= i < |credits| && r.rows[j].name == credits[i].person.create.name
                                          && r.rows[j].originalId == credits[i].person.where.originalId
    decreases |credits|
  {
    if credits != [] {
      var front := credits[..|credits| - 1];
      var c := credits[|credits| - 1];
      assert forall i :: 0 <= i < |front| ==> front[i] == credits[i];
      var prev := ConnectPersons(persons, movieId, front);
      ConnectPersonsRows(persons, movieId, front);
      ConnectPersonsIds(persons, movieId, front);
      LinkPersonGrows(prev, movieId, c);
      LinkPersonNew(prev, movieId, c);
      var r := ConnectPersons(persons, movieId, credits);
      forall j | |persons| <= j < |r.rows|
        ensures && FindPerson(persons, r.rows[j].originalId).None?
                && exists i :: 0 <= i < |credits| && r.rows[j].name == credits[i].person.create.name
                                                  && r.rows[j].originalId == credits[i].person.where.originalId
      {
        if j < |prev.rows| {
          assert r.rows[j] == prev.rows[j];
          var i :| 0 <= i < |front| && prev.rows[j].name == front[i].person.create.name
                                    && prev.rows[j].originalId == front[i].person.where.originalId;
          assert credits[i] == front[i];
        } else {
          forall x | x in persons ensures x.originalId != r.rows[j].originalId {
            var k :| 0 <= k < |persons| && persons[k] == x;
            assert prev.rows[k] == x;
          }
          assert credits[|credits| - 1] == c;
        }
      }
    }
  }

  lemma SameKeysFront(credits: seq<AddMovie.Credit>)
    requires credits != [] && SameKeys(credits)
    ensures SameKeys(credits[..|credits| - 1])
  {
    var front := credits[..|credits| - 1];
    assert forall i :: 0 <= i < |front| ==> front[i] == credits[i];
  }

  /** A link made before a connect-or-create still points at the same person row. */
  lemma LinkKept(prev: Linked<Person, MoviePerson>, r: Linked<Person, MoviePerson>, i: nat)
    requires |prev.rows| <= |r.rows| && r.rows[..|prev.rows|] == prev.rows
    requires |r.links| == |prev.links| + 1 && r.links[..|prev.links|] == prev.links
    requires i < |prev.links| && 1 <= prev.links[i].personId <= |prev.rows|
    ensures r.links[i] == prev.links[i]
    ensures r.rows[r.links[i].personId - 1] == prev.rows[prev.links[i].personId - 1]
  {
    assert r.links[i] == r.links[..|prev.links|][i];
    var pid := prev.links[i].personId;
    assert r.rows[pid - 1] == r.rows[..|prev.rows|][pid - 1];
  }

  /** Connecting persons adds one link per credit, in order, with the credit's role. */
  lemma {:induction false} ConnectPersonsRoles(persons: seq<Person>, movieId: nat,
                                               credits: seq<AddMovie.Credit>)
    ensures var r := ConnectPersons(persons, movieId, credits);
      forall i :: 0 <= i < |credits| ==> r.links[i].movieId == movieId && r.links[i].job == credits[i].job
    decreases |credits|
  {
    if credits != [] {
      var front := credits[..|credits| - 1];
      var prev := ConnectPersons(persons, movieId, front);
      ConnectPersonsRoles(persons, movieId, front);
      var r := ConnectPersons(persons, movieId, credits);
      assert r.links == prev.links + [MoviePerson(movieId, r.links[|front|].personId, credits[|front|].job)];
      forall i | 0 <= i < |front|
        ensures r.links[i].movieId == movieId && r.links[i].job == credits[i].job
      {
        assert r.links[i] == prev.links[i];
        assert front[i] == credits[i];
      }
    }
  }

  /** Connecting persons links every credit to the person with the credit's `original_id`. */
  lemma ConnectPersonsLinks(persons: seq<Person>, movieId: nat, credits: seq<AddMovie.Credit>)
    requires PersonIdsInOrder(persons) && SameKeys(credits)
    ensures var r := ConnectPersons(persons, movieId, credits);
      forall i :: 0 <= i < |credits| ==>
        && 1 <= r.links[i].personId <= |r.rows|
        && r.rows[r.links[i].personId - 1].originalId == credits[i].person.where.originalId
  {
    forall i | 0 <= i < |credits| {
      PersonLinkAt(persons, movieId, credits, i);
    }
  }

  /** The `i`-th link made for the credits points at the person with the `i`-th credit's
      `original_id`. */
  lemma {:induction false} PersonLinkAt(persons: seq<Person>, movieId: nat,
                                        credits: seq<AddMovie.Credit>, i: nat)
    requires PersonIdsInOrder(persons) && SameKeys(credits) && i < |credits|
    ensures var r := ConnectPersons(persons, movieId, credits);
      && 1 <= r.links[i].personId <= |r.rows|
      && r.rows[r.links[i].personId - 1].originalId == credits[i].person.where.originalId
    decreases |credits|
  {
    var front := credits[..|credits| - 1];
    var c := credits[|credits| - 1];
    var prev := ConnectPersons(persons, movieId, front);
    ConnectPersonsIds(persons, movieId, front);
    var r := LinkPerson(prev, movieId, c);
    if i == |front| {
      LinkPersonTarget(prev, movieId, c);
    } else {
      SameKeysFront(credits);
      PersonLinkAt(persons, movieId, front, i);
      LinkPersonGrows(prev, movieId, c);
      LinkKept(prev, r, i);
      assert front[i] == credits[i];
    }
  }

  /** `db.movie.create(fields)`: the movie row with the next id, the user's rating and watch,
      and its genre and person links. */
  function InsertMovie(t: Tables, userId: int, m: CatalogMovie, released: Instant, rating: int,
                       date: Instant, persons: seq<AddMovie.Credit>): Tables
  {
    var id := |t.movie| + 1;
    var genres := ConnectGenres(t.genre, id, m.genres);
    var people := ConnectPersons(t.person, id, persons);
    Tables(movie := t.movie + [Movie(id, m.imdbId, m.title, m.overview, m.runtime,
                                     m.posterPath, released, m.tagline)],
           seen := t.seen + [Seen(userId, id, date)],
           rating := t.rating + [Rating(userId, id, rating)],
           genre := genres.rows,
           movieGenre := t.movieGenre + genres.links,
           person := people.rows,
           moviePerson := t.moviePerson + people.links)
  }

  /** The genre links `after` adds to `before`: existing genre rows and links are kept, and
      there is one new link per listed name, in order, from the movie `movieId` to a genre row
      with that name. */
  predicate GenresLinked(before: Tables, after: Tables, movieId: nat, names: seq<string>) {
    && |before.genre| <= |after.genre| && after.genre[..|before.genre|] == before.genre
    && |after.movieGenre| == |before.movieGenre| + |names|
    && after.movieGenre[..|before.movieGenre|] == before.movieGenre
    && forall i :: 0 <= i < |names| ==>
         && after.movieGenre[|before.movieGenre| + i].movieId == movieId
         && 1 <= after.movieGenre[|before.movieGenre| + i].genreId <= |after.genre|
         && after.genre[after.movieGenre[|before.movieGenre| + i].genreId - 1].name == names[i]
  }

  /** The person links `after` adds to `before`: existing person rows and links are kept, and
      there is one new link per credit, in order, from the movie `movieId` in the credit's role
      to a person row with the credit's `original_id`. */
  predicate PersonsLinked(before: Tables, after: Tables, movieId: nat, credits: seq<AddMovie.Credit>) {
    && |before.person| <= |after.person| && after.person[..|before.person|] == before.person
    && |after.moviePerson| == |before.moviePerson| + |credits|
    && after.moviePerson[..|before.moviePerson|] == before.moviePerson
    && forall i :: 0 <= i < |credits| ==>
         && after.moviePerson[|before.moviePerson| + i].movieId == movieId
         && after.moviePerson[|before.moviePerson| + i].job == credits[i].job
         && 1 <= after.moviePerson[|before.moviePerson| + i].personId <= |after.person|
         && after.person[after.moviePerson[|before.moviePerson| + i].personId - 1].originalId
            == credits[i].person.where.originalId
  }

/** A new movie is one movie row with the next id and the fetched attributes, one rating row
      and one watch for the user, one genre link per fetched genre to a genre with that name,
      and one person link per credit, with its role, to the person with its `original_id`.
      Existing rows stay as they are. */
  lemma InsertMovieFacts(t: Tables, userId: int, m: CatalogMovie, released: Instant, rating: int,
                         date: Instant, persons: seq<AddMovie.Credit>)
    requires GenreIdsInOrder(t.genre) && PersonIdsInOrder(t.person) && SameKeys(persons)
    ensures var r := InsertMovie(t, userId, m, released, rating, date, persons);
      && r.movie == t.movie + [Movie(|t.movie| + 1, m.imdbId, m.title, m.overview, m.runtime,
                                     m.posterPath, released, m.tagline)]
      && r.seen == t.seen + [Seen(userId, |t.movie| + 1, date)]
      && r.rating == t.rating + [Rating(userId, |t.movie| + 1, rating)]
      && GenresLinked(t, r, |t.movie| + 1, m.genres)
      && PersonsLinked(t, r, |t.movie| + 1, persons)
  {
    InsertMovieGenres(t, userId, m, released, rating, date, persons);
    InsertMoviePersons(t, userId, m, released, rating, date, persons);
  }

  /** The genre part of `InsertMovieFacts`. */
  lemma InsertMovieGenres(t: Tables, userId: int, m: CatalogMovie, released: Instant, rating: int,
                          date: Instant, persons: seq<AddMovie.Credit>)
    requires GenreIdsInOrder(t.genre)
    ensures GenresLinked(t, InsertMovie(t, userId, m, released, rating, date, persons), |t.movie| + 1, m.genres)
  {
    var id := |t.movie| + 1;
    ConnectGenresIds(t.genre, id, m.genres);
    ConnectGenresLinks(t.genre, id, m.genres);
    ConnectGenresMovie(t.genre, id, m.genres);
    GenresLinkedOf(t, InsertMovie(t, userId, m, released, rating, date, persons), id, m.genres,
                   ConnectGenres(t.genre, id, m.genres));
  }

  /** The genre links of a table built from the result of connecting the names. */
  lemma GenresLinkedOf(t: Tables, r: Tables, id: nat, names: seq<string>,
                       genres: Linked<Genre, MovieGenre>)
    requires r.genre == genres.rows && r.movieGenre == t.movieGenre + genres.links
    requires |genres.links| == |names|
    requires |t.genre| <= |genres.rows| && genres.rows[..|t.genre|] == t.genre
    requires forall i :: 0 <= i < |names| ==> genres.links[i].movieId == id
    requires forall i :: 0 <= i < |names| ==>
      && 1 <= genres.links[i].genreId <= |genres.rows|
      && genres.rows[genres.links[i].genreId - 1].name == names[i]
    ensures GenresLinked(t, r, id, names)
  {
    forall i | 0 <= i < |names|
      ensures && r.movieGenre[|t.movieGenre| + i].movieId == id
              && 1 <= r.movieGenre[|t.movieGenre| + i].genreId <= |r.genre|
              && r.genre[r.movieGenre[|t.movieGenre| + i].genreId - 1].name == names[i]
    {
      assert r.movieGenre[|t.movieGenre| + i] == genres.links[i];
    }
  }

  /** The person part of `InsertMovieFacts`. */
  lemma InsertMoviePersons(t: Tables, userId: int, m: CatalogMovie, released: Instant, rating: int,
                           date: Instant, persons: seq<AddMovie.Credit>)
    requires PersonIdsInOrder(t.person) && SameKeys(persons)
    ensures PersonsLinked(t, InsertMovie(t, userId, m, released, rating, date, persons), |t.movie| + 1, persons)
  {
    var id := |t.movie| + 1;
    ConnectPersonsIds(t.person, id, persons);
    ConnectPersonsRoles(t.person, id, persons);
    ConnectPersonsLinks(t.person, id, persons);
    PersonsLinkedOf(t, InsertMovie(t, userId, m, released, rating, date, persons), id, persons,
                    ConnectPersons(t.person, id, persons));
  }

  /** The person links of a table built from the result of connecting the credits. */
  lemma PersonsLinkedOf(t: Tables, r: Tables, id: nat, persons: seq<AddMovie.Credit>,
                        people: Linked<Person, MoviePerson>)
    requires r.person == people.rows && r.moviePerson == t.moviePerson + people.links
    requires |people.links| == |persons|
    requires |t.person| <= |people.rows| && people.rows[..|t.person|] == t.person
    requires forall i :: 0 <= i < |persons| ==> people.links[i].movieId == id && people.links[i].job == persons[i].job
    requires forall i :: 0 <= i < |persons| ==>
      && 1 <= people.links[i].personId <= |people.rows|
      && people.rows[people.links[i].personId - 1].originalId == persons[i].person.where.originalId
    ensures PersonsLinked(t, r, id, persons)
  {
    forall i | 0 <= i < |persons|
      ensures && r.moviePerson[|t.moviePerson| + i].movieId == id
              && r.moviePerson[|t.moviePerson| + i].job == persons[i].job
              && 1 <= r.moviePerson[|t.moviePerson| + i].personId <= |r.person|
              && r.person[r.moviePerson[|t.moviePerson| + i].personId - 1].originalId
                 == persons[i].person.where.originalId
    {
      assert r.moviePerson[|t.moviePerson| + i] == people.links[i];
    }
  }

  /** Creating a movie whose `imdb_id` is not taken keeps the database's constraints. */
  lemma InsertMovieKeepsValid(t: Tables, userId: int, m: CatalogMovie, released: Instant,
                              rating: int, date: Instant, persons: seq<AddMovie.Credit>)
    requires Valid(t) && FindMovie(t.movie, m.imdbId).None? && SameKeys(persons)
    ensures Valid(InsertMovie(t, userId, m, released, rating, date, persons))
  {
    var id := |t.movie| + 1;
    ConnectGenresIds(t.genre, id, m.genres);
    ConnectGenresUnique(t.genre, id, m.genres);
    ConnectPersonsIds(t.person, id, persons);
    ConnectPersonsUnique(t.person, id, persons);
    var movies := InsertMovie(t, userId, m, released, rating, date, persons).movie;
    forall i, j | 0 <= i < j < |movies| ensures movies[i].imdbId != movies[j].imdbId {
      if j == |t.movie| {
        assert movies[i] in t.movie;
      }
    }
  }

  // ---------------------------------------------------------------------------------------
  // The action as a function of the database before it.

  function ActionSpec(t: Tables, userId: int, form: Form.Submission, env: Services): Step {
    var action := Form.Get(form, "_action");
    if action == Some(Form.Text("search")) then SearchSpec(t, form, env)
    else if action == Some(Form.Text("add")) then AddSpec(t, userId, form, env)
    else Step(t, NoResponse, [])
  }

  function SearchSpec(t: Tables, form: Form.Submission, env: Services): Step {
    var query := Form.Get(form, "query");
    if !Form.Truthy(query) then Step(t, BadRequest("Query is required"), [])
    else
      var text := Form.ToText(query.value);
      Step(t, SearchResults(env.search(text)), [SearchRequest(text)])
  }

  function AddSpec(t: Tables, userId: int, form: Form.Submission, env: Services): Step {
    var route := MovieRoute(form);
    var rating := RatingValue(Form.Get(form, "rating"), env);
    match WatchDate(form, env)
    case None => Step(t, Failed, [])
    case Some(date) =>
      var requests := [MovieRequest(route), MovieRequest(route + "/credits")];
      var movie := env.fetchMovie(route);
      var credits := env.fetchCredits(route + "/credits");
      if credits.None? || movie.None? then Step(t, Failed, requests)
      else
        match FindMovie(t.movie, movie.value.imdbId)
        case Some(m) =>
          var watched := t.(seen := t.seen + [Seen(userId, m.id, date)]);
          if rating.None? then Step(watched, Failed, requests)
          else Step(watched.(rating := t.rating + [Rating(userId, m.id, rating.value)]),
                    Redirect(MovieLocation(m.id)), requests)
        case None =>
          var released := ParseDateOnly(movie.value.releaseDate);
          if released.None? || rating.None? then Step(t, Failed, requests)
          else
            var persons := AddMovie.CastAndCrew(credits.value.cast, credits.value.crew);
            Step(InsertMovie(t, userId, movie.value, released.value, rating.value, date, persons),
                 Redirect(MovieLocation(|t.movie| + 1)), requests)
  }

  // ---------------------------------------------------------------------------------------
  // What the action does, branch by branch.

  /** A search without a query (missing or empty) answers 400 `Query is required`, asks the
      catalog nothing and changes nothing. */
  lemma SearchNeedsQuery(t: Tables, userId: int, form: Form.Submission, env: Services)
    requires Form.Get(form, "_action") == Some(Form.Text("search"))
    requires !Form.Truthy(Form.Get(form, "query"))
    ensures ActionSpec(t, userId, form, env) == Step(t, BadRequest("Query is required"), [])
  {
  }

  /** A search with a query sends its string form to the catalog and answers the results,
      changing nothing. */
  lemma SearchForwardsQuery(t: Tables, userId: int, form: Form.Submission, env: Services)
    requires Form.Get(form, "_action") == Some(Form.Text("search"))
    requires Form.Truthy(Form.Get(form, "query"))
    ensures var q := Form.ToText(Form.Get(form, "query").value);
      ActionSpec(t, userId, form, env) == Step(t, SearchResults(env.search(q)), [SearchRequest(q)])
  {
  }

  /** Any other `_action`, or none, changes nothing, asks nothing and answers nothing. */
  lemma OtherActionsIgnored(t: Tables, userId: int, form: Form.Submission, env: Services)
    requires Form.Get(form, "_action") != Some(Form.Text("search"))
    requires Form.Get(form, "_action") != Some(Form.Text("add"))
    ensures ActionSpec(t, userId, form, env) == Step(t, NoResponse, [])
  {
  }

  /** An add whose watch date is an Invalid Date fails before anything is fetched or
      written. */
  lemma InvalidWatchDateFails(t: Tables, userId: int, form: Form.Submission, env: Services)
    requires Form.Get(form, "_action") == Some(Form.Text("add"))
    requires WatchDate(form, env).None?
    ensures ActionSpec(t, userId, form, env) == Step(t, Failed, [])
  {
  }

  /** Otherwise an add fetches the movie and its credits, with no check of the entered id: a
      form without a usable IMDb id fetches `/undefined`. A catalog answer the action cannot
      read fails it without a write. */
  lemma AddFetchesRoute(t: Tables, userId: int, form: Form.Submission, env: Services)
    requires Form.Get(form, "_action") == Some(Form.Text("add"))
    requires WatchDate(form, env).Some?
    ensures var r := ActionSpec(t, userId, form, env);
      && r.requests == [MovieRequest(MovieRoute(form)), MovieRequest(MovieRoute(form) + "/credits")]
      && (AddMovie.ImdbId(Form.Get(form, "movieId")).None? ==>
            r.requests == [MovieRequest("/undefined"), MovieRequest("/undefined/credits")])
      && (env.fetchMovie(MovieRoute(form)).None? || env.fetchCredits(MovieRoute(form) + "/credits").None? ==>
            r.tables == t && r.response == Failed)
  {
    if AddMovie.ImdbId(Form.Get(form, "movieId")).None? {
      assert MovieRoute(form) == "/" + "undefined" == "/undefined";
      assert MovieRoute(form) + "/credits" == "/undefined/credits";
    }
  }

  /** When the fetched record's `imdb_id` is already in the database, the user's watch and then
      rating of that movie are appended and nothing else changes. The rating is stored as
      submitted, with no range check, and a missing one is 0. */
  lemma ExistingMovieGetsWatch(t: Tables, userId: int, form: Form.Submission, env: Services,
                               date: Instant, fetched: CatalogMovie, m: Movie, rating: int)
    requires Form.Get(form, "_action") == Some(Form.Text("add"))
    requires WatchDate(form, env) == Some(date)
    requires env.fetchMovie(MovieRoute(form)) == Some(fetched)
    requires env.fetchCredits(MovieRoute(form) + "/credits").Some?
    requires FindMovie(t.movie, fetched.imdbId) == Some(m)
    requires RatingValue(Form.Get(form, "rating"), env) == Some(rating)
    ensures var r := ActionSpec(t, userId, form, env);
      && r.tables == t.(seen := t.seen + [Seen(userId, m.id, date)],
                        rating := t.rating + [Rating(userId, m.id, rating)])
      && r.response == Redirect(MovieLocation(m.id))
  {
  }

  /** The two writes for an existing movie are separate: when the rating is not an integer
      the watch is already stored and the action then fails. */
  lemma ExistingMovieBadRating(t: Tables, userId: int, form: Form.Submission, env: Services,
                               date: Instant, fetched: CatalogMovie, m: Movie)
    requires Form.Get(form, "_action") == Some(Form.Text("add"))
    requires WatchDate(form, env) == Some(date)
    requires env.fetchMovie(MovieRoute(form)) == Some(fetched)
    requires env.fetchCredits(MovieRoute(form) + "/credits").Some?
    requires FindMovie(t.movie, fetched.imdbId) == Some(m)
    requires RatingValue(Form.Get(form, "rating"), env).None?
    ensures var r := ActionSpec(t, userId, form, env);
      r.tables == t.(seen := t.seen + [Seen(userId, m.id, date)]) && r.response == Failed
  {
  }

  /** When the fetched `imdb_id` is new, the movie is created with the user's rating and watch,
      its genres and the normalised credits, and the answer redirects to it. */
  lemma NewMovieCreated(t: Tables, userId: int, form: Form.Submission, env: Services,
                        date: Instant, fetched: CatalogMovie, credits: CatalogCredits,
                        released: Instant, rating: int)
    requires Form.Get(form, "_action") == Some(Form.Text("add"))
    requires WatchDate(form, env) == Some(date)
    requires env.fetchMovie(MovieRoute(form)) == Some(fetched)
    requires env.fetchCredits(MovieRoute(form) + "/credits") == Some(credits)
    requires FindMovie(t.movie, fetched.imdbId).None?
    requires ParseDateOnly(fetched.releaseDate) == Some(released)
    requires RatingValue(Form.Get(form, "rating"), env) == Some(rating)
    ensures var r := ActionSpec(t, userId, form, env);
      && r.tables == InsertMovie(t, userId, fetched, released, rating, date,
                                 AddMovie.CastAndCrew(credits.cast, credits.crew))
      && r.response == Redirect(MovieLocation(|t.movie| + 1))
  {
    assert ActionSpec(t, userId, form, env) == AddSpec(t, userId, form, env);
  }

  /** The create is one write: with an unreadable release date or a rating that is not an
      integer nothing is stored. */
  lemma NewMovieRejected(t: Tables, userId: int, form: Form.Submission, env: Services,
                         fetched: CatalogMovie)
    requires Form.Get(form, "_action") == Some(Form.Text("add"))
    requires WatchDate(form, env).Some?
    requires env.fetchMovie(MovieRoute(form)) == Some(fetched)
    requires env.fetchCredits(MovieRoute(form) + "/credits").Some?
    requires FindMovie(t.movie, fetched.imdbId).None?
    requires ParseDateOnly(fetched.releaseDate).None? || RatingValue(Form.Get(form, "rating"), env).None?
    ensures var r := ActionSpec(t, userId, form, env);
      r.tables == t && r.response == Failed
  {
  }

  /** Every branch keeps the database's constraints: ids in order, unique `imdb_id`, genre name
      and person `original_id`. */
  lemma ActionKeepsValid(t: Tables, userId: int, form: Form.Submission, env: Services)
    requires Valid(t)
    ensures Valid(ActionSpec(t, userId, form, env).tables)
  {
    if Form.Get(form, "_action") == Some(Form.Text("add")) {
      AddKeepsValid(t, userId, form, env);
    }
  }

  /** The add branch keeps the constraints: a watch of a known movie leaves the movie, genre
      and person tables alone, and a new movie is inserted with fresh keys. */
  lemma AddKeepsValid(t: Tables, userId: int, form: Form.Submission, env: Services)
    requires Valid(t)
    ensures Valid(AddSpec(t, userId, form, env).tables)
  {
    var route := MovieRoute(form);
    var movie := env.fetchMovie(route);
    var credits := env.fetchCredits(route + "/credits");
    var released := if movie.Some? then ParseDateOnly(movie.value.releaseDate) else None;
    var rating := RatingValue(Form.Get(form, "rating"), env);
    if WatchDate(form, env).Some? && movie.Some? && credits.Some? && FindMovie(t.movie, movie.value.imdbId).None?
       && released.Some? && rating.Some?
    {
      var persons := AddMovie.CastAndCrew(credits.value.cast, credits.value.crew);
      NewMovieInserted(t, userId, form, env, WatchDate(form, env).value, movie.value, credits.value,
                       released.value, rating.value);
      CastAndCrewSameKeys(credits.value.cast, credits.value.crew);
      InsertMovieKeepsValid(t, userId, movie.value, released.value, rating.value,
                            WatchDate(form, env).value, persons);
    } else {
      AddKeepsCatalog(t, userId, form, env);
    }
  }

  /** The add branch's tables when a new movie is inserted. */
  lemma NewMovieInserted(t: Tables, userId: int, form: Form.Submission, env: Services,
                         date: Instant, fetched: CatalogMovie, credits: CatalogCredits,
                         released: Instant, rating: int)
    requires WatchDate(form, env) == Some(date)
    requires env.fetchMovie(MovieRoute(form)) == Some(fetched)
    requires env.fetchCredits(MovieRoute(form) + "/credits") == Some(credits)
    requires FindMovie(t.movie, fetched.imdbId).None?
    requires ParseDateOnly(fetched.releaseDate) == Some(released)
    requires RatingValue(Form.Get(form, "rating"), env) == Some(rating)
    ensures AddSpec(t, userId, form, env).tables
            == InsertMovie(t, userId, fetched, released, rating, date, AddMovie.CastAndCrew(credits.cast, credits.crew))
  {
  }

  /** Unless a new movie is inserted, the add branch leaves the movie, genre and person tables
      as they were. */
  lemma AddKeepsCatalog(t: Tables, userId: int, form: Form.Submission, env: Services)
    requires var movie := env.fetchMovie(MovieRoute(form));
      !(&& WatchDate(form, env).Some? && movie.Some?
        && env.fetchCredits(MovieRoute(form) + "/credits").Some?
        && FindMovie(t.movie, movie.value.imdbId).None?
        && ParseDateOnly(movie.value.releaseDate).Some?
        && RatingValue(Form.Get(form, "rating"), env).Some?)
    ensures var after := AddSpec(t, userId, form, env).tables;
      after.movie == t.movie && after.genre == t.genre && after.person == t.person
  {
  }

  /** Every normalised credit looks its person up by the id it would create it with. */
  lemma CastAndCrewSameKeys(cast: seq<AddMovie.CastMember>, crew: seq<AddMovie.CrewMember>)
    ensures SameKeys(AddMovie.CastAndCrew(cast, crew))
  {
    var persons := AddMovie.CastAndCrew(cast, crew);
    AddMovie.CreditOrigin(cast, crew);
    assert forall i :: 0 <= i < |persons| ==> persons[i] in persons;
  }

  // ---------------------------------------------------------------------------------------
  // The database and the action's steps.

  /** The database the action writes to: one list of rows per table. */
  class Database {
    var movie: seq<Movie>
    var seen: seq<Seen>
    var rating: seq<Rating>
    var genre: seq<Genre>
    var movieGenre: seq<MovieGenre>
    var person: seq<Person>
    var moviePerson: seq<MoviePerson>

    function Contents(): Tables
      reads this
    {
      Tables(movie, seen, rating, genre, movieGenre, person, moviePerson)
    }

    ghost predicate Valid()
      reads this
    {
      Schema.Valid(Contents())
    }

    /** `db.seen.create({ data })`. */
    method CreateSeen(row: Seen)
      modifies this
      ensures Contents() == old(Contents()).(seen := old(seen) + [row])
    {
      seen := seen + [row];
    }

    /** `db.rating.create({ data })`. */
    method CreateRating(row: Rating)
      modifies this
      ensures Contents() == old(Contents()).(rating := old(rating) + [row])
    {
      rating := rating + [row];
    }

    /** `db.movie.create(fields)` with its nested creates, as one write; answers the new id. */
    method CreateMovie(userId: int, m: CatalogMovie, released: Instant, score: int,
                       date: Instant, persons: seq<AddMovie.Credit>) returns (id: nat)
      modifies this
      ensures Contents() == InsertMovie(old(Contents()), userId, m, released, score, date, persons)
      ensures id == |old(movie)| + 1
    {
      id := |movie| + 1;
      var t := InsertMovie(Contents(), userId, m, released, score, date, persons);
      movie, seen, rating, genre := t.movie, t.seen, t.rating, t.genre;
      movieGenre, person, moviePerson := t.movieGenre, t.person, t.moviePerson;
    }
  }

  /** The route's `action`: the user is the one `requireUserId` answered. */
  method Action(db: Database, userId: int, form: Form.Submission, env: Services)
    returns (response: Response, requests: seq<Request>)
    modifies db
    ensures Step(db.Contents(), response, requests) == ActionSpec(old(db.Contents()), userId, form, env)
    ensures old(db.Valid()) ==> db.Valid()
  {
    ghost var before := db.Contents();
    if Schema.Valid(before) {
      ActionKeepsValid(before, userId, form, env);
    }
    var action := Form.Get(form, "_action");
    if action == Some(Form.Text("search")) {
      var query := Form.Get(form, "query");
      if !Form.Truthy(query) {
        return BadRequest("Query is required"), [];
      }
      var text := Form.ToText(query.value);
      return SearchResults(env.search(text)), [SearchRequest(text)];
    }
    if action == Some(Form.Text("add")) {
      response, requests := Add(db, userId, form, env);
      return;
    }
    return NoResponse, [];
  }

  /** The `add` branch: fetch, then append a watch to a known movie or create a new one. */
  method Add(db: Database, userId: int, form: Form.Submission, env: Services)
    returns (response: Response, requests: seq<Request>)
    modifies db
    ensures Step(db.Contents(), response, requests) == AddSpec(old(db.Contents()), userId, form, env)
  {
    var route := MovieRoute(form);
    var score := RatingValue(Form.Get(form, "rating"), env);
    var date := WatchDate(form, env);
    if date.None? {
      return Failed, [];
    }
    requests := [MovieRequest(route), MovieRequest(route + "/credits")];
    var movie := env.fetchMovie(route);
    var credits := env.fetchCredits(route + "/credits");
    if credits.None? {
      return Failed, requests;
    }
    var persons := AddMovie.GetCastAndCrew(credits.value.cast, credits.value.crew);
    if movie.None? {
      return Failed, requests;
    }
    var existing := FindMovie(db.movie, movie.value.imdbId);
    if existing.Some? {
      db.CreateSeen(Seen(userId, existing.value.id, date.value));
      if score.None? {
        return Failed, requests;
      }
      db.CreateRating(Rating(userId, existing.value.id, score.value));
      return Redirect(MovieLocation(existing.value.id)), requests;
    }
    var released := ParseDateOnly(movie.value.releaseDate);
    if released.None? || score.None? {
      return Failed, requests;
    }
    var id := db.CreateMovie(userId, movie.value, released.value, score.value, date.value, persons);
    return Redirect(MovieLocation(id)), requests;
  }
}
