/** The one-line summary a movie card shows under its title (`utils/movie.ts`): release year,
    watch date and first rating, joined by " - ", each only when the record has it. */
module MovieMeta {
  import opened Wrappers
  import opened Text
  import opened Dates
  import opened Schema

  /** `MovieWithSeenAndRating`: the optional parts of a movie joined with a watch and its
      ratings; `rating` is `None` when the record carries no rating list at all. */
  datatype Item = Item(releaseDate: Option<Instant>, date: Option<Instant>, rating: Option<seq<Rating>>)

  /** The date formatters of `utils/date.ts`, which this model leaves uninterpreted:
      `yearFromDate` is not part of this model, and `formatDate` is `Intl.DateTimeFormat`. */
  datatype Formatters = Formatters(yearFromDate: Instant -> string, formatDate: Instant -> string)

  const Separator := " - "

  /** The rating part: the rating, then "/10". */
  function RatingText(rating: int): (r: string)
    ensures |r| > 3 && r[|r| - 3..] == "/10"
  {
    IntToString(rating) + "/10"
  }

  /** Whether the record has a non-empty rating list. */
  predicate HasRating(m: Item) {
    m.rating.Some? && |m.rating.value| > 0
  }

  /** The parts the summary consists of, in the order the code adds them. */
  function Parts(m: Item, f: Formatters): (r: seq<string>)
    ensures |r| <= 3
    ensures |r| == 0 <==> m.releaseDate.None? && m.date.None? && !HasRating(m)
  {
    (if m.releaseDate.Some? then [f.yearFromDate(m.releaseDate.value)] else [])
    + (if m.date.Some? then [f.formatDate(m.date.value)] else [])
    + (if HasRating(m) then [RatingText(m.rating.value[0].rating)] else [])
  }

  /** The summary line. */
  function Line(m: Item, f: Formatters): string {
    Join(Parts(m, f), Separator)
  }

  /** `movieMeta`: collects the present parts in a list, one `push` at a time, and joins
      them. */
  method Summary(m: Item, f: Formatters) returns (line: string)
    ensures line == Line(m, f)
  {
    var meta: seq<string> := [];
    if m.releaseDate.Some? {
      meta := meta + [f.yearFromDate(m.releaseDate.value)];
    }
    if m.date.Some? {
      meta := meta + [f.formatDate(m.date.value)];
    }
    if m.rating.Some? && |m.rating.value| > 0 {
      meta := meta + [RatingText(m.rating.value[0].rating)];
    }
    assert meta == Parts(m, f);
    line := Join(meta, Separator);
  }

  function Count(b: bool): nat {
    if b then 1 else 0
  }

  /** Each part is there exactly when its field is: the release year first, then the watch
      date, then the rating, which is last. */
  lemma PartsPresentInOrder(m: Item, f: Formatters)
    ensures var p := Parts(m, f);
      && |p| == Count(m.releaseDate.Some?) + Count(m.date.Some?) + Count(HasRating(m))
      && (m.releaseDate.Some? ==> p[0] == f.yearFromDate(m.releaseDate.value))
      && (m.date.Some? ==> p[Count(m.releaseDate.Some?)] == f.formatDate(m.date.value))
      && (HasRating(m) ==> p[|p| - 1] == RatingText(m.rating.value[0].rating))
  {
  }

  /** A record with none of the three fields gives the empty string; when the formatters never
      give an empty string, that is the only way to get it. */
  lemma EmptyLine(m: Item, f: Formatters)
    ensures m.releaseDate.None? && m.date.None? && !HasRating(m) ==> Line(m, f) == ""
    ensures (forall d :: f.yearFromDate(d) != "" && f.formatDate(d) != "") && Line(m, f) == ""
            ==> m.releaseDate.None? && m.date.None? && !HasRating(m)
  {
    var p := Parts(m, f);
    if p != [] && (forall d :: f.yearFromDate(d) != "" && f.formatDate(d) != "") {
      JoinLength(p, Separator);
      assert |p[0]| > 0;
      assert TotalLength(p) >= |p[0]|;
    }
  }

  /** A join of `n` parts puts a separator between each two of them: its length is that of the
      parts plus `n - 1` separators. */
  lemma LineLength(m: Item, f: Formatters)
    requires Parts(m, f) != []
    ensures |Line(m, f)| == TotalLength(Parts(m, f)) + (|Parts(m, f)| - 1) * |Separator|
  {
    JoinLength(Parts(m, f), Separator);
  }

  /** Only the first rating is shown: the ones after it do not change the line. */
  lemma OnlyFirstRating(m: Item, f: Formatters, first: Rating, rest: seq<Rating>)
    ensures Line(m.(rating := Some([first] + rest)), f) == Line(m.(rating := Some([first])), f)
  {
  }

  /** The six cases of `utils/movie.test.ts`, for a release date whose year prints as "2020", a
      watch date that prints as "2020-02-01" and a rating of 7. */
  lemma TestCases(f: Formatters, released: Instant, seen: Instant, seven: Rating)
    requires f.yearFromDate(released) == "2020" && f.formatDate(seen) == "2020-02-01"
    requires seven.rating == 7
    ensures Line(Item(Some(released), None, None), f) == "2020"
    ensures Line(Item(None, Some(seen), None), f) == "2020-02-01"
    ensures Line(Item(None, None, Some([seven])), f) == "7/10"
    ensures Line(Item(Some(released), Some(seen), None), f) == "2020 - 2020-02-01"
    ensures Line(Item(Some(released), None, Some([seven])), f) == "2020 - 7/10"
    ensures Line(Item(Some(released), Some(seen), Some([seven])), f) == "2020 - 2020-02-01 - 7/10"
  {
    var y, d, r := "2020", "2020-02-01", "7/10";
    assert RatingText(7) == r;
    assert y + Separator + d == "2020 - 2020-02-01";
    assert y + Separator + (d + Separator + r) == "2020 - 2020-02-01 - 7/10";
    assert Parts(Item(Some(released), Some(seen), None), f) == [y, d];
    assert Join([y, d], Separator) == y + Separator + d;
    assert Join([y, r], Separator) == y + Separator + r;
    var all := Parts(Item(Some(released), Some(seen), Some([seven])), f);
    assert all == [y, d, r];
    assert all[1..] == [d, r];
    assert Join([d, r], Separator) == d + Separator + r;
  }
}
