/** The relational tables the application reads and writes, one datatype per row kind. */
module Schema {
  import opened Wrappers
  import opened Dates

  /** The closed set of roles a person can hold on a movie (the `job` enum). */
  datatype Job = Cast | Director | Writer | Producer | Composer

  datatype Movie = Movie(id: nat, imdbId: string, title: string, overview: string, runtime: nat,
                         poster: Option<string>, releaseDate: Instant, tagline: string)
  /** One watch event; a user may have many for the same movie. */
  datatype Seen = Seen(userId: int, movieId: nat, date: Instant)
  datatype Rating = Rating(userId: int, movieId: nat, rating: int)
  datatype Genre = Genre(id: nat, name: string)
  datatype MovieGenre = MovieGenre(movieId: nat, genreId: nat)
  datatype Person = Person(id: nat, name: string, originalId: int)
  /** One credit: a person holding a role on a movie. */
  datatype MoviePerson = MoviePerson(movieId: nat, personId: nat, job: Job)

  /** The whole database: every table as the list of its rows in insertion order. */
  datatype Tables = Tables(movie: seq<Movie>, seen: seq<Seen>, rating: seq<Rating>,
                           genre: seq<Genre>, movieGenre: seq<MovieGenre>,
                           person: seq<Person>, moviePerson: seq<MoviePerson>)

  /** The constraints the database keeps: identifiers are handed out 1, 2, 3, ... in insertion
      order (there is no deletion), and `imdb_id`, genre `name` and person `original_id` are
      unique. */
  ghost predicate Valid(t: Tables) {
    MoviesValid(t.movie) && GenresValid(t.genre) && PersonsValid(t.person)
  }

  ghost predicate MoviesValid(movies: seq<Movie>) {
    && (forall i :: 0 <= i < |movies| ==> movies[i].id == i + 1)
    && (forall i, j :: 0 <= i < j < |movies| ==> movies[i].imdbId != movies[j].imdbId)
  }

  ghost predicate GenresValid(genres: seq<Genre>) {
    GenreIdsInOrder(genres) && GenreNamesUnique(genres)
  }

  ghost predicate GenreIdsInOrder(genres: seq<Genre>) {
    forall i :: 0 <= i < |genres| ==> genres[i].id == i + 1
  }

  ghost predicate GenreNamesUnique(genres: seq<Genre>) {
    forall i, j :: 0 <= i < j < |genres| ==> genres[i].name != genres[j].name
  }

  ghost predicate PersonsValid(persons: seq<Person>) {
    PersonIdsInOrder(persons) && OriginalIdsUnique(persons)
  }

  ghost predicate PersonIdsInOrder(persons: seq<Person>) {
    forall i :: 0 <= i < |persons| ==> persons[i].id == i + 1
  }

  ghost predicate OriginalIdsUnique(persons: seq<Person>) {
    forall i, j :: 0 <= i < j < |persons| ==> persons[i].originalId != persons[j].originalId
  }

  /** `db.movie.findUnique({ where: { imdb_id } })`. */
  function FindMovie(movies: seq<Movie>, imdbId: string): (r: Option<Movie>)
    ensures r.Some? ==> r.value in movies && r.value.imdbId == imdbId
    ensures r.None? <==> forall m :: m in movies ==> m.imdbId != imdbId
  {
    if movies == [] then None
    else if movies[0].imdbId == imdbId then Some(movies[0])
    else FindMovie(movies[1..], imdbId)
  }

  /** The movie with a given id, as a join on `movie.id` finds it. */
  function MovieById(movies: seq<Movie>, id: nat): (r: Option<Movie>)
    ensures r.Some? ==> r.value in movies && r.value.id == id
    ensures r.None? <==> forall m :: m in movies ==> m.id != id
  {
    if movies == [] then None
    else if movies[0].id == id then Some(movies[0])
    else MovieById(movies[1..], id)
  }

  /** `genre.findUnique({ where: { name } })`. */
  function FindGenre(genres: seq<Genre>, name: string): (r: Option<Genre>)
    ensures r.Some? ==> r.value in genres && r.value.name == name
    ensures r.None? <==> forall g :: g in genres ==> g.name != name
  {
    if genres == [] then None
    else if genres[0].name == name then Some(genres[0])
    else FindGenre(genres[1..], name)
  }

  /** The genre with a given id, as a join on `genre.id` finds it. */
  function GenreById(genres: seq<Genre>, id: nat): (r: Option<Genre>)
    ensures r.Some? ==> r.value in genres && r.value.id == id
    ensures r.None? <==> forall g :: g in genres ==> g.id != id
  {
    if genres == [] then None
    else if genres[0].id == id then Some(genres[0])
    else GenreById(genres[1..], id)
  }

  /** `person.findUnique({ where: { original_id } })`. */
  function FindPerson(persons: seq<Person>, originalId: int): (r: Option<Person>)
    ensures r.Some? ==> r.value in persons && r.value.originalId == originalId
    ensures r.None? <==> forall p :: p in persons ==> p.originalId != originalId
  {
    if persons == [] then None
    else if persons[0].originalId == originalId then Some(persons[0])
    else FindPerson(persons[1..], originalId)
  }

  /** The person with a given id, as a join on `person.id` finds it. */
  function PersonById(persons: seq<Person>, id: nat): (r: Option<Person>)
    ensures r.Some? ==> r.value in persons && r.value.id == id
    ensures r.None? <==> forall p :: p in persons ==> p.id != id
  {
    if persons == [] then None
    else if persons[0].id == id then Some(persons[0])
    else PersonById(persons[1..], id)
  }
}
