/** The search page (`routes/search.tsx`): its action turns the submitted query into a redirect
    to the page's own URL, and its loader rewrites the query into a full-text search term by
    replacing every whitespace character with " & ". */
module Search {
  import opened Wrappers
  import opened Form
  import opened Text

  /** The characters the regular expression class `\s` matches: the ECMAScript WhiteSpace and
      LineTerminator characters. */
  predicate IsSpace(c: char) {
    || c == '\t' || c == '\n' || c == '\U{000B}' || c == '\U{000C}' || c == '\r' || c == ' '
    || c == '\U{00A0}' || c == '\U{1680}' || '\U{2000}' <= c <= '\U{200A}'
    || c == '\U{2028}' || c == '\U{2029}' || c == '\U{202F}' || c == '\U{205F}'
    || c == '\U{3000}' || c == '\U{FEFF}'
  }

  const Conjunction := " & "

  /** What one character becomes. */
  function Piece(c: char): string {
    if IsSpace(c) then Conjunction else [c]
  }

  /** `replace(/\s/g, ' & ')`. */
  function Rewrite(q: string): string
    decreases |q|
  {
    if q == [] then [] else Rewrite(q[..|q| - 1]) + Piece(q[|q| - 1])
  }

  function SpaceCount(q: string): nat
    decreases |q|
  {
    if q == [] then 0 else SpaceCount(q[..|q| - 1]) + (if IsSpace(q[|q| - 1]) then 1 else 0)
  }

  /** `q.split(/\s/)`: the runs of non-whitespace characters between the whitespace ones, empty
      runs included. */
  function Pieces(q: string): (r: seq<string>)
    ensures |r| == SpaceCount(q) + 1
    ensures forall i, j :: 0 <= i < |r| && 0 <= j < |r[i]| ==> !IsSpace(r[i][j])
    decreases |q|
  {
    if q == [] then [""]
    else
      var c := q[|q| - 1];
      var p := Pieces(q[..|q| - 1]);
      if IsSpace(c) then p + [""] else p[..|p| - 1] + [p[|p| - 1] + [c]]
  }

  /** The rewrite works character by character: rewriting a concatenation concatenates the
      rewrites. */
  lemma {:induction false} RewriteAppend(a: string, b: string)
    ensures Rewrite(a + b) == Rewrite(a) + Rewrite(b)
    decreases |b|
  {
    if b != [] {
      var front := b[..|b| - 1];
      assert (a + b)[..|a + b| - 1] == a + front;
      assert (a + b)[|a + b| - 1] == b[|b| - 1];
      RewriteAppend(a, front);
    } else {
      assert a + b == a;
    }
  }

  /** Every whitespace character becomes the three characters " & ", every other character
      stays. */
  lemma {:induction false} RewriteLength(q: string)
    ensures |Rewrite(q)| == |q| + 2 * SpaceCount(q)
    decreases |q|
  {
    if q != [] {
      RewriteLength(q[..|q| - 1]);
    }
  }

  /** A query without whitespace is searched for as it is. */
  lemma {:induction false} RewriteWithoutSpace(q: string)
    requires forall i :: 0 <= i < |q| ==> !IsSpace(q[i])
    ensures Rewrite(q) == q
    decreases |q|
  {
    if q != [] {
      var front := q[..|q| - 1];
      RewriteWithoutSpace(front);
      assert front + [q[|q| - 1]] == q;
    }
  }

  /** The rewrite is the query split at its whitespace and joined again with " & ". */
  lemma {:induction false} RewriteIsSplitJoin(q: string)
    ensures Rewrite(q) == Join(Pieces(q), Conjunction)
    decreases |q|
  {
    if q != [] {
      var front := q[..|q| - 1];
      var c := q[|q| - 1];
      var p := Pieces(front);
      RewriteIsSplitJoin(front);
      if IsSpace(c) {
        JoinSnoc(p, "", Conjunction);
      } else {
        JoinExtendLast(p, [c], Conjunction);
      }
    }
  }

  /** `decodeURI` and `encodeURI`, which this model leaves uninterpreted; `None` stands for the
      `URIError` either throws on malformed input. */
  datatype Codec = Codec(decode: string -> Option<string>, encode: string -> Option<string>)

  /** The loader's data, without the search results, which the database's full-text search
      computes. */
  datatype LoaderData = LoaderData(query: string, searchTerm: string)

  /** `loader`: the `query` parameter, `''` when it is missing, and the term searched for. */
  function Loader(param: Option<string>, codec: Codec): (r: Option<LoaderData>)
    ensures r.Some? <==> codec.decode(param.GetOr("")).Some?
    ensures r.Some? ==> r.value.query == param.GetOr("")
                        && r.value.searchTerm == Rewrite(codec.decode(param.GetOr("")).value)
  {
    var query := param.GetOr("");
    match codec.decode(query)
    case None => None
    case Some(decoded) => Some(LoaderData(query, Rewrite(decoded)))
  }

  /** The submitted query as the action reads it: the field's text, `''` when it is missing. */
  function ActionQuery(form: Submission): (r: string)
    ensures "query" !in form ==> r == ""
    ensures "query" in form && form["query"].Text? ==> r == form["query"].text
  {
    match Get(form, "query")
    case None => ""
    case Some(e) => ToText(e)
  }

  const SearchPath := "/search?query="

  /** `action`: the redirect target, the search page with the encoded query. */
  function ActionRedirect(form: Submission, codec: Codec): (r: Option<string>)
    ensures r.Some? <==> codec.encode(ActionQuery(form)).Some?
    ensures r.Some? ==> r.value == SearchPath + codec.encode(ActionQuery(form)).value
  {
    match codec.encode(ActionQuery(form))
    case None => None
    case Some(encoded) => Some(SearchPath + encoded)
  }

  /** A two-word query searches for both words. */
  lemma RewriteExample()
    ensures Rewrite("star wars") == "star & wars"
  {
    var a, b := "star", "wars";
    assert "star wars" == a + " " + b;
    RewriteWithoutSpace(a);
    RewriteWithoutSpace(b);
    RewriteAppend(a + " ", b);
    RewriteAppend(a, " ");
    assert Rewrite(" ") == Rewrite([]) + Piece(' ');
    assert a + Conjunction + b == "star & wars";
  }
}
