/** The start page's loader (`routes/index.tsx`): the movies whose every watch falls inside a
    chosen year, newest first, together with their number. */
module YearIndex {
  import opened Wrappers
  import opened Text
  import opened Dates
  import opened Query
  import opened Schema

  /** One movie as the page lists it: its id, title, poster and all its ratings. */
  datatype Card = Card(id: nat, title: string, poster: Option<string>, rating: seq<Rating>)

  /** The loader's data. */
  datatype IndexData = IndexData(year: string, moviesInYear: nat, movies: seq<Card>)

  /** The `gte`/`lte` bounds of the filter. */
  datatype Bounds = Bounds(gte: Instant, lte: Instant)

  /** The `year` search parameter, or the current year written out. */
  function Year(param: Option<string>, currentYear: int): (r: string)
    ensures param.Some? ==> r == param.value
    ensures param.None? ==> r == IntToString(currentYear)
  {
    param.GetOr(IntToString(currentYear))
  }

  /** The first and the last day of the year, each read as a date-only string (so at
      midnight); `None` when either is an Invalid Date. */
  function YearBounds(year: string): Option<Bounds> {
    match (ParseDateOnly(year + "-01-01"), ParseDateOnly(year + "-12-31"))
    case (Some(lo), Some(hi)) => Some(Bounds(lo, hi))
    case _ => None
  }

  predicate InYear(b: Bounds, d: Instant) {
    NotAfter(b.gte, d) && NotAfter(d, b.lte)
  }

  /** Prisma's `seen: { every: ... }`: every watch of the movie, by any user, lies inside the
      bounds. */
  predicate Selected(t: Tables, b: Bounds, m: Movie) {
    forall s :: s in t.seen && s.movieId == m.id ==> InYear(b, s.date)
  }

  /** The filter both queries share. */
  function Filtered(t: Tables, b: Bounds): seq<Movie> {
    Where(t.movie, (m: Movie) => Selected(t, b, m))
  }

  function CardOf(t: Tables, m: Movie): Card {
    Card(m.id, m.title, m.poster, Where(t.rating, (r: Rating) => r.movieId == m.id))
  }

  function Cards(t: Tables, movies: seq<Movie>): (r: seq<Card>)
    ensures |r| == |movies| && forall i :: 0 <= i < |movies| ==> r[i] == CardOf(t, movies[i])
  {
    seq(|movies|, i requires 0 <= i < |movies| => CardOf(t, movies[i]))
  }

  /** `orderBy: { id: 'desc' }`. */
  predicate IdDesc(a: Card, b: Card) {
    a.id >= b.id
  }

  /** `loader`: `None` when the year gives an Invalid Date, which the database refuses. */
  function Loader(t: Tables, param: Option<string>, currentYear: int): Option<IndexData> {
    var year := Year(param, currentYear);
    match YearBounds(year)
    case None => None
    case Some(b) => Some(IndexData(year, |Filtered(t, b)|, Sort(Cards(t, Filtered(t, b)), IdDesc)))
  }

  // ---------------------------------------------------------------------------------------
  // What the page shows.

  /** A text of four digits followed by `-MM-DD` reads as that date. */
  lemma ParseDayOfYear(year: string, suffix: string, m: nat, d: nat)
    requires |year| == 4 && AllDigits(year)
    requires |suffix| == 6 && suffix[0] == '-' && suffix[3] == '-'
    requires AllDigits(suffix[1..3]) && AllDigits(suffix[4..])
    requires ParseDigits(suffix[1..3]) == m && ParseDigits(suffix[4..]) == d
    requires 1 <= m <= 12 && 1 <= d <= 31
    ensures ParseDateOnly(year + suffix) == Some(Instant(ParseDigits(year), m, d, 0))
  {
    var s := year + suffix;
    assert s[..4] == year;
    assert s[5..7] == suffix[1..3];
    assert s[8..] == suffix[4..];
  }

  lemma TwoDigits(s: string)
    requires |s| == 2 && AllDigits(s)
    ensures ParseDigits(s) == 10 * DigitValue(s[0]) + DigitValue(s[1])
  {
    var head := s[..|s| - 1];
    assert head == [s[0]] && head[..|head| - 1] == [];
    assert ParseDigits(head) == DigitValue(s[0]);
  }

  /** For a four-digit year the bounds are midnight of January 1 and midnight of December 31. */
  lemma FourDigitYearBounds(year: string)
    requires |year| == 4 && AllDigits(year)
    ensures YearBounds(year) == Some(Bounds(Instant(ParseDigits(year), 1, 1, 0), Instant(ParseDigits(year), 12, 31, 0)))
  {
    var jan, dec := "-01-01", "-12-31";
    assert jan[1..3] == "01" && jan[4..] == "01";
    assert dec[1..3] == "12" && dec[4..] == "31";
    TwoDigits("01");
    TwoDigits("12");
    TwoDigits("31");
    ParseDayOfYear(year, jan, 1, 1);
    ParseDayOfYear(year, dec, 12, 31);
  }

  /** For a four-digit year the loader answers, with the list and count of that calendar
      year's filter. */
  lemma FourDigitYearLoads(t: Tables, param: Option<string>, currentYear: int)
    requires var y := Year(param, currentYear); |y| == 4 && AllDigits(y)
    ensures var y := Year(param, currentYear);
      var b := Bounds(Instant(ParseDigits(y), 1, 1, 0), Instant(ParseDigits(y), 12, 31, 0));
      Loader(t, param, currentYear) == Some(IndexData(y, |Filtered(t, b)|, Sort(Cards(t, Filtered(t, b)), IdDesc)))
  {
    FourDigitYearBounds(Year(param, currentYear));
  }

  /** Without a `year` parameter the page shows the current year. */
  lemma DefaultYear(t: Tables, currentYear: int)
    ensures Loader(t, None, currentYear).Some? ==> Loader(t, None, currentYear).value.year == IntToString(currentYear)
  {
  }

  /** The count is the length of the list, because both use the same filter. */
  lemma CountIsListLength(t: Tables, param: Option<string>, currentYear: int)
    ensures Loader(t, param, currentYear).Some? ==>
      Loader(t, param, currentYear).value.moviesInYear == |Loader(t, param, currentYear).value.movies|
  {
  }

  /** The list shows a movie exactly when every one of its watches is inside the year, and
      newest movies (highest ids) come first. */
  lemma ListedIffEveryWatchInYear(t: Tables, b: Bounds)
    ensures var list := Sort(Cards(t, Filtered(t, b)), IdDesc);
      && (forall m :: m in t.movie && Selected(t, b, m) ==> CardOf(t, m) in list)
      && (forall c :: c in list ==> exists m :: m in t.movie && Selected(t, b, m) && c == CardOf(t, m))
      && Ordered(list, IdDesc)
  {
    var f := Filtered(t, b);
    var cards := Cards(t, f);
    var list := Sort(cards, IdDesc);
    assert Connected(IdDesc);
    forall m | m in t.movie && Selected(t, b, m) ensures CardOf(t, m) in list {
      assert m in f;
      var i :| 0 <= i < |f| && f[i] == m;
      assert cards[i] in multiset(list);
    }
    forall c | c in list ensures exists m :: m in t.movie && Selected(t, b, m) && c == CardOf(t, m) {
      assert c in multiset(cards);
      var i :| 0 <= i < |cards| && cards[i] == c;
      assert f[i] in f;
    }
  }

  /** With distinct ids the cards are listed in strictly decreasing id order. */
  lemma StrictlyNewestFirst(t: Tables, b: Bounds)
    requires MoviesValid(t.movie)
    ensures var list := Sort(Cards(t, Filtered(t, b)), IdDesc);
      forall i :: 0 < i < |list| ==> list[i - 1].id > list[i].id
  {
    var cards := Cards(t, Filtered(t, b));
    forall i, j | 0 <= i < j < |cards| ensures cards[i].id != cards[j].id {
      FilteredAscending(t, b, i, j);
    }
    SortedDistinctIds(cards);
  }

  /** Sorting cards with distinct ids by `IdDesc` orders them strictly. */
  lemma SortedDistinctIds(cards: seq<Card>)
    requires forall x, y :: 0 <= x < y < |cards| ==> cards[x].id != cards[y].id
    ensures var list := Sort(cards, IdDesc);
      forall i :: 0 < i < |list| ==> list[i - 1].id > list[i].id
  {
    var list := Sort(cards, IdDesc);
    assert Connected(IdDesc);
    assert Ordered(list, IdDesc);
    forall i | 0 < i < |list| ensures list[i - 1].id > list[i].id {
      assert IdDesc(list[i - 1], list[i]);
      SameIdInPermutation(cards, list, i - 1, i);
    }
  }

  /** The filter keeps the table order, in which ids increase. */
  lemma {:induction false} FilteredAscending(t: Tables, b: Bounds, i: nat, j: nat)
    requires MoviesValid(t.movie)
    requires i < j < |Filtered(t, b)|
    ensures Filtered(t, b)[i].id < Filtered(t, b)[j].id
  {
    WhereAscending(t.movie, (m: Movie) => Selected(t, b, m), i, j);
  }

  /** Selecting rows from a table whose ids are ascending keeps them ascending. */
  lemma {:induction false} WhereAscending(movies: seq<Movie>, p: Movie -> bool, i: nat, j: nat)
    requires forall k :: 0 <= k < |movies| ==> movies[k].id == k + 1
    requires i < j < |Where(movies, p)|
    ensures Where(movies, p)[i].id < Where(movies, p)[j].id
    decreases |movies|
  {
    var front := movies[..|movies| - 1];
    var last := movies[|movies| - 1];
    var w := Where(front, p);
    assert Where(movies, p) == w + (if p(last) then [last] else []);
    if j < |w| {
      WhereAscending(front, p, i, j);
    } else {
      assert Where(movies, p)[j] == last;
      assert Where(movies, p)[i] == w[i] && w[i] in front;
      var k :| 0 <= k < |front| && front[k] == w[i];
    }
  }

  /** Two positions of a permutation of a list with distinct ids hold distinct ids. */
  lemma SameIdInPermutation(cards: seq<Card>, list: seq<Card>, i: nat, j: nat)
    requires multiset(list) == multiset(cards)
    requires forall x, y :: 0 <= x < y < |cards| ==> cards[x].id != cards[y].id
    requires i < j < |list|
    ensures list[i].id != list[j].id
  {
    assert list[i] in multiset(cards) && list[j] in multiset(cards);
    var x :| 0 <= x < |cards| && cards[x] == list[i];
    var y :| 0 <= y < |cards| && cards[y] == list[j];
    if x == y {
      assert multiset(list)[list[i]] >= 2 by {
        assert list == list[..i] + [list[i]] + list[i + 1..j] + [list[j]] + list[j + 1..];
      }
      CountUnique(cards, list[i]);
      assert false;
    }
  }

  /** In a list with distinct ids no card occurs twice. */
  lemma {:induction false} CountUnique(cards: seq<Card>, c: Card)
    requires forall x, y :: 0 <= x < y < |cards| ==> cards[x].id != cards[y].id
    ensures multiset(cards)[c] <= 1
  {
    if cards != [] {
      var rest := cards[1..];
      CountUnique(rest, c);
      assert cards == [cards[0]] + rest;
      if cards[0] == c {
        assert c !in rest by {
          forall k | 0 <= k < |rest| ensures rest[k] != c {
            assert cards[k + 1] == rest[k];
          }
        }
      }
    }
  }

  /** A movie nobody has watched is listed for every year (the `every` is vacuous). */
  lemma UnwatchedMovieSelected(t: Tables, b: Bounds, m: Movie)
    requires forall s :: s in t.seen ==> s.movieId != m.id
    ensures Selected(t, b, m)
  {
  }

  /** A movie watched once inside the year and once outside it is not listed. */
  lemma MixedYearsNotSelected(t: Tables, year: nat, m: Movie, inside: Seen, outside: Seen)
    requires inside in t.seen && outside in t.seen && inside.movieId == m.id && outside.movieId == m.id
    requires inside.date == Instant(year, 6, 1, 0) && outside.date == Instant(year + 1, 6, 1, 0)
    ensures !Selected(t, Bounds(Instant(year, 1, 1, 0), Instant(year, 12, 31, 0)), m)
  {
    assert !NotAfter(outside.date, Instant(year, 12, 31, 0));
  }

  /** The upper bound is midnight at the start of December 31, so a watch later that day is
      outside the year. */
  lemma LateOnNewYearsEveNotSelected(t: Tables, year: int, m: Movie, s: Seen)
    requires s in t.seen && s.movieId == m.id
    requires s.date.year == year && s.date.month == 12 && s.date.day == 31 && s.date.millis > 0
    ensures !Selected(t, Bounds(Instant(year, 1, 1, 0), Instant(year, 12, 31, 0)), m)
  {
  }
}
