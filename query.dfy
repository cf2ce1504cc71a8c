/** The SQL the statistics and index pages issue, stated as functions over lists of rows:
    `GROUP BY` with `COUNT(*)`, `HAVING`, `ORDER BY` and `LIMIT`. */
module Query {

  /** One result row of `SELECT key, COUNT(*) ... GROUP BY key`. */
  datatype Group<K> = Group(key: K, count: nat)

  function Keys<K>(g: seq<Group<K>>): (ks: seq<K>)
    ensures |ks| == |g| && forall i :: 0 <= i < |g| ==> ks[i] == g[i].key
  {
    seq(|g|, i requires 0 <= i < |g| => g[i].key)
  }

  /** No key is reported in two groups. */
  predicate DistinctKeys<K(==)>(g: seq<Group<K>>) {
    forall i, j :: 0 <= i < j < |g| ==> g[i].key != g[j].key
  }

  /** The count reported for key `k` (0 when there is no group for it). */
  function CountFor<K(==)>(g: seq<Group<K>>, k: K): nat {
    if g == [] then 0 else (if g[0].key == k then g[0].count else 0) + CountFor(g[1..], k)
  }

  /** The sum of all reported counts. */
  function Total<K>(g: seq<Group<K>>): nat {
    if g == [] then 0 else g[0].count + Total(g[1..])
  }

  /** Accounts for one more row with key `x`. */
  function Bump<K(==)>(g: seq<Group<K>>, x: K): seq<Group<K>> {
    if g == [] then [Group(x, 1)]
    else if g[0].key == x then [Group(x, g[0].count + 1)] + g[1..]
    else [g[0]] + Bump(g[1..], x)
  }

  /** One more row with key `x` adds one to that key's count and to the total, and adds the
      key when it was not there. */
  lemma BumpFacts<K(!new)>(g: seq<Group<K>>, x: K)
    ensures forall k :: CountFor(Bump(g, x), k) == CountFor(g, k) + (if k == x then 1 else 0)
    ensures forall k :: k in Keys(Bump(g, x)) <==> k in Keys(g) || k == x
    ensures DistinctKeys(g) ==> DistinctKeys(Bump(g, x))
    ensures Total(Bump(g, x)) == Total(g) + 1
    ensures |Bump(g, x)| <= |g| + 1
  {
    BumpCounts(g, x);
    BumpKeys(g, x);
    if DistinctKeys(g) {
      BumpDistinct(g, x);
    }
  }

  lemma {:induction false} BumpCounts<K(!new)>(g: seq<Group<K>>, x: K)
    ensures forall k :: CountFor(Bump(g, x), k) == CountFor(g, k) + (if k == x then 1 else 0)
    ensures Total(Bump(g, x)) == Total(g) + 1
    ensures |Bump(g, x)| <= |g| + 1
  {
    if g != [] && g[0].key == x {
      assert Bump(g, x)[1..] == g[1..];
    } else if g != [] {
      BumpCounts(g[1..], x);
      assert Bump(g, x)[1..] == Bump(g[1..], x);
    }
  }

  lemma {:induction false} BumpKeys<K(!new)>(g: seq<Group<K>>, x: K)
    ensures forall k :: k in Keys(Bump(g, x)) <==> k in Keys(g) || k == x
  {
    var r := Bump(g, x);
    if g != [] && g[0].key == x {
      assert Keys(r) == Keys(g);
    } else if g != [] {
      var rest := Bump(g[1..], x);
      BumpKeys(g[1..], x);
      assert r == [g[0]] + rest;
      assert Keys(g) == [g[0].key] + Keys(g[1..]);
      assert Keys(r) == [g[0].key] + Keys(rest);
      forall k ensures k in Keys(r) <==> k in Keys(g) || k == x {
        assert k in Keys(r) <==> k == g[0].key || k in Keys(rest);
        assert k in Keys(g) <==> k == g[0].key || k in Keys(g[1..]);
      }
    } else {
      assert Keys(r) == [x];
    }
  }

  lemma {:induction false} BumpDistinct<K(!new)>(g: seq<Group<K>>, x: K)
    requires DistinctKeys(g)
    ensures DistinctKeys(Bump(g, x))
  {
    var r := Bump(g, x);
    if g != [] && g[0].key != x {
      var rest := Bump(g[1..], x);
      BumpDistinct(g[1..], x);
      BumpKeys(g[1..], x);
      assert r[1..] == rest;
      assert g[0].key !in Keys(g[1..]) by {
        forall m | 0 <= m < |g| - 1 ensures g[1..][m].key != g[0].key {
          assert g[1..][m] == g[m + 1];
        }
      }
      assert g[0].key !in Keys(rest);
      forall i, j | 0 <= i < j < |r| ensures r[i].key != r[j].key {
        if i == 0 {
          assert r[j] == rest[j - 1];
          assert r[j].key in Keys(rest);
        } else {
          assert r[i] == rest[i - 1] && r[j] == rest[j - 1];
        }
      }
    }
  }

  /** `GROUP BY key` with `COUNT(*)` over the keys of the selected rows. */
  function Tally<K(==,!new)>(s: seq<K>): (r: seq<Group<K>>)
    ensures forall k :: CountFor(r, k) == multiset(s)[k]
    ensures forall k :: k in Keys(r) <==> k in s
    ensures DistinctKeys(r)
    ensures Total(r) == |s|
    ensures |r| <= |s|
  {
    if s == [] then []
    else
      assert s == [s[0]] + s[1..];
      BumpFacts(Tally(s[1..]), s[0]);
      Bump(Tally(s[1..]), s[0])
  }

  /** With distinct keys, a group's count is the count reported for its key. */
  lemma {:induction false} CountForGroup<K>(g: seq<Group<K>>, i: nat)
    requires DistinctKeys(g) && i < |g|
    ensures CountFor(g, g[i].key) == g[i].count
  {
    if i == 0 {
      CountForAbsent(g[1..], g[0].key);
    } else {
      CountForGroup(g[1..], i - 1);
    }
  }

  lemma {:induction false} CountForAbsent<K>(g: seq<Group<K>>, k: K)
    requires k !in Keys(g)
    ensures CountFor(g, k) == 0
  {
    if g != [] {
      assert Keys(g[1..]) == Keys(g)[1..];
      CountForAbsent(g[1..], k);
    }
  }

  /** Every group of a tally reports how often its key occurs, and that is at least once. */
  lemma TallyGroup<K(!new)>(s: seq<K>, i: nat)
    requires i < |Tally(s)|
    ensures Tally(s)[i].count == multiset(s)[Tally(s)[i].key] > 0
  {
    var g := Tally(s);
    CountForGroup(g, i);
    assert g[i].key in Keys(g);
  }

  /** `ORDER BY`: consecutive rows are in the order `le`. */
  predicate Ordered<T>(s: seq<T>, le: (T, T) -> bool) {
    forall i :: 0 < i < |s| ==> le(s[i - 1], s[i])
  }

  /** `le` compares every two rows (ties allowed). */
  ghost predicate Connected<T(!new)>(le: (T, T) -> bool) {
    forall a, b :: le(a, b) || le(b, a)
  }

  function Insert<T(!new)>(x: T, s: seq<T>, le: (T, T) -> bool): (r: seq<T>)
    ensures multiset(r) == multiset(s) + multiset{x}
    ensures |r| == |s| + 1
    ensures r[0] == x || (s != [] && r[0] == s[0])
    ensures Connected(le) && Ordered(s, le) ==> Ordered(r, le)
  {
    if s == [] then [x]
    else if le(x, s[0]) then [x] + s
    else
      assert s == [s[0]] + s[1..];
      [s[0]] + Insert(x, s[1..], le)
  }

  /** The rows of `s` in the order `le`; rows that `le` ties keep no particular order. */
  function Sort<T(!new)>(s: seq<T>, le: (T, T) -> bool): (r: seq<T>)
    ensures multiset(r) == multiset(s)
    ensures |r| == |s|
    ensures Connected(le) ==> Ordered(r, le)
  {
    if s == [] then []
    else
      assert s == [s[0]] + s[1..];
      Insert(s[0], Sort(s[1..], le), le)
  }

  /** `LIMIT n`. */
  function Limit<T>(s: seq<T>, n: nat): (r: seq<T>)
    ensures |r| == if |s| <= n then |s| else n
    ensures r == s[..|r|]
    ensures |s| <= n ==> r == s
  {
    if |s| <= n then s else s[..n]
  }

  /** A prefix of an ordered list is ordered. */
  lemma LimitOrdered<T>(s: seq<T>, n: nat, le: (T, T) -> bool)
    requires Ordered(s, le)
    ensures Ordered(Limit(s, n), le)
  {
    var r := Limit(s, n);
    forall i | 0 < i < |r| ensures le(r[i - 1], r[i]) {
      assert r[i - 1] == s[i - 1] && r[i] == s[i];
    }
  }

  /** `le` is transitive: together with `Connected`, a total preorder such as one
      `ORDER BY` clause gives. */
  ghost predicate Transitive<T(!new)>(le: (T, T) -> bool) {
    forall a, b, c :: le(a, b) && le(b, c) ==> le(a, c)
  }

  /** In a list ordered by a transitive `le`, every row ranks no lower than every later row. */
  lemma {:induction false} OrderedChain<T(!new)>(s: seq<T>, le: (T, T) -> bool, i: nat, j: nat)
    requires Ordered(s, le) && Transitive(le) && i < j < |s|
    ensures le(s[i], s[j])
    decreases j - i
  {
    if i + 1 < j {
      OrderedChain(s, le, i, j - 1);
      assert le(s[j - 1], s[j]);
    }
  }

  /** `ORDER BY ... LIMIT n` keeps the top rows: a row it leaves out ranks no higher than any
      row it keeps. */
  lemma LimitTop<T(!new)>(s: seq<T>, n: nat, le: (T, T) -> bool, i: nat, j: nat)
    requires Ordered(s, le) && Transitive(le)
    requires j < |Limit(s, n)| <= i < |s|
    ensures le(Limit(s, n)[j], s[i])
  {
    OrderedChain(s, le, j, i);
  }

  /** Sorting groups and keeping the first `n`: a group whose key is not kept ranks no higher
      than any kept group. */
  lemma SortLimitTop<K(!new)>(g: seq<Group<K>>, le: (Group<K>, Group<K>) -> bool, n: nat, x: Group<K>, j: nat)
    requires Connected(le) && Transitive(le)
    requires x in g && x.key !in Keys(Limit(Sort(g, le), n))
    requires j < |Limit(Sort(g, le), n)|
    ensures le(Limit(Sort(g, le), n)[j], x)
  {
    var sorted := Sort(g, le);
    var i := LeftOutIndex(g, sorted, n, x);
    LimitTop(sorted, n, le, i, j);
  }

  /** A group of `g` whose key a prefix of a permutation of `g` leaves out stands after it. */
  lemma LeftOutIndex<K>(g: seq<Group<K>>, sorted: seq<Group<K>>, n: nat, x: Group<K>) returns (i: nat)
    requires multiset(sorted) == multiset(g)
    requires x in g && x.key !in Keys(Limit(sorted, n))
    ensures |Limit(sorted, n)| <= i < |sorted| && sorted[i] == x
  {
    assert x in multiset(sorted);
    i :| 0 <= i < |sorted| && sorted[i] == x;
  }

  /** The different values of a list. */
  function Elements<K>(s: seq<K>): set<K> {
    set k | k in s
  }

  /** A list without repeats has as many different values as elements. */
  lemma {:induction false} DistinctCardinality<K>(ks: seq<K>)
    requires forall i, j :: 0 <= i < j < |ks| ==> ks[i] != ks[j]
    ensures |Elements(ks)| == |ks|
  {
    if ks != [] {
      var rest := ks[1..];
      DistinctCardinality(rest);
      assert ks[0] !in Elements(rest);
      assert Elements(ks) == Elements(rest) + {ks[0]};
    }
  }

  /** `GROUP BY` gives one group per different value. */
  lemma TallySize<K(!new)>(s: seq<K>)
    ensures |Tally(s)| == |Elements(s)|
  {
    var ks := Keys(Tally(s));
    DistinctCardinality(ks);
    assert Elements(ks) == Elements(s);
  }

  /** `GROUP BY ... ORDER BY ... LIMIT n` under a total order: `n` groups, or all of them when
      there are no more different values; every value when there are at most `n`; and a
      value left out ranks, with its number of rows, no higher than any group kept. */
  lemma TopGroupsFacts<K(!new)>(s: seq<K>, le: (Group<K>, Group<K>) -> bool, n: nat, r: seq<Group<K>>)
    requires Connected(le) && Transitive(le)
    requires r == Limit(GroupOrdered(s, le), n)
    ensures |r| == if |Elements(s)| <= n then |Elements(s)| else n
    ensures |Elements(s)| <= n ==> forall k :: k in Keys(r) <==> k in s
    ensures forall k, j :: k in s && k !in Keys(r) && 0 <= j < |r| ==> le(r[j], Group(k, multiset(s)[k]))
  {
    var g := Tally(s);
    TallySize(s);
    GroupOrderedFacts(s, le);
    if |Elements(s)| <= n {
      assert r == GroupOrdered(s, le);
    }
    forall k, j | k in s && k !in Keys(r) && 0 <= j < |r| ensures le(r[j], Group(k, multiset(s)[k])) {
      assert k in Keys(g);
      var m :| 0 <= m < |g| && g[m].key == k;
      TallyGroup(s, m);
      assert g[m] == Group(k, multiset(s)[k]);
      SortLimitTop(g, le, n, g[m], j);
    }
  }

  /** `HAVING COUNT(*) > 1`. */
  function MoreThanOnce<K(==,!new)>(g: seq<Group<K>>): (r: seq<Group<K>>)
    ensures forall x :: x in r <==> x in g && x.count > 1
  {
    if g == [] then []
    else if g[0].count > 1 then [g[0]] + MoreThanOnce(g[1..])
    else MoreThanOnce(g[1..])
  }

  /** Sorting groups keeps the sum of their counts. */
  lemma {:induction false} TotalSort<K(!new)>(g: seq<Group<K>>, le: (Group<K>, Group<K>) -> bool)
    ensures Total(Sort(g, le)) == Total(g)
  {
    if g != [] {
      TotalSort(g[1..], le);
      TotalInsert(g[0], Sort(g[1..], le), le);
    }
  }

  lemma {:induction false} TotalInsert<K(!new)>(x: Group<K>, g: seq<Group<K>>, le: (Group<K>, Group<K>) -> bool)
    ensures Total(Insert(x, g, le)) == x.count + Total(g)
  {
    if g != [] && !le(x, g[0]) {
      TotalInsert(x, g[1..], le);
      assert Insert(x, g, le)[1..] == Insert(x, g[1..], le);
    }
  }

  /** Sorting groups keeps their keys distinct. */
  lemma {:induction false} DistinctSort<K(!new)>(g: seq<Group<K>>, le: (Group<K>, Group<K>) -> bool)
    requires DistinctKeys(g)
    ensures DistinctKeys(Sort(g, le))
  {
    if g != [] {
      DistinctSort(g[1..], le);
      var rest := Sort(g[1..], le);
      forall y | y in rest ensures y.key != g[0].key {
        assert y in multiset(g[1..]);
        var j :| 0 <= j < |g[1..]| && g[1..][j] == y;
        assert g[j + 1] == y;
      }
      DistinctInsert(g[0], rest, le);
    }
  }

  lemma {:induction false} DistinctInsert<K(!new)>(x: Group<K>, g: seq<Group<K>>, le: (Group<K>, Group<K>) -> bool)
    requires DistinctKeys(g)
    requires forall y :: y in g ==> y.key != x.key
    ensures DistinctKeys(Insert(x, g, le))
  {
    var r := Insert(x, g, le);
    if g != [] && !le(x, g[0]) {
      DistinctInsert(x, g[1..], le);
      var rest := Insert(x, g[1..], le);
      assert r == [g[0]] + rest;
      forall j | 0 < j < |r| ensures r[j].key != g[0].key {
        assert r[j] == rest[j - 1];
        assert rest[j - 1] in multiset(rest);
        if r[j] != x {
          assert r[j] in g[1..];
        }
      }
    } else if g != [] {
      assert r == [x] + g;
    }
  }

  /** `GROUP BY key ORDER BY ...`: the groups of `s` in the order `le`. */
  function GroupOrdered<K(==,!new)>(s: seq<K>, le: (Group<K>, Group<K>) -> bool): seq<Group<K>> {
    Sort(Tally(s), le)
  }

  /** Lists that are permutations of each other report the same keys. */
  lemma SameKeysOfPermutation<K(!new)>(a: seq<Group<K>>, b: seq<Group<K>>)
    requires multiset(a) == multiset(b)
    ensures forall k :: k in Keys(a) ==> k in Keys(b)
  {
    forall k | k in Keys(a) ensures k in Keys(b) {
      var i :| 0 <= i < |a| && a[i].key == k;
      assert a[i] in multiset(b);
      var j :| 0 <= j < |b| && b[j] == a[i];
    }
  }

  /** Each reported group counts the rows with its key, every key of the rows is reported
      exactly once, the counts add up to the number of rows, and the order is `le`'s. */
  lemma GroupOrderedFacts<K(!new)>(s: seq<K>, le: (Group<K>, Group<K>) -> bool)
    ensures var r := GroupOrdered(s, le);
      && (forall i :: 0 <= i < |r| ==> r[i].count == multiset(s)[r[i].key] > 0)
      && (forall k :: k in Keys(r) <==> k in s)
      && DistinctKeys(r)
      && Total(r) == |s|
      && (Connected(le) ==> Ordered(r, le))
  {
    var g := Tally(s);
    var r := GroupOrdered(s, le);
    DistinctSort(g, le);
    TotalSort(g, le);
    SameKeysOfPermutation(g, r);
    SameKeysOfPermutation(r, g);
    forall i | 0 <= i < |r| ensures r[i].count == multiset(s)[r[i].key] > 0 {
      assert r[i] in multiset(g);
      var j :| 0 <= j < |g| && g[j] == r[i];
      TallyGroup(s, j);
    }
  }

  /** `WHERE p`: the rows satisfying `p`, in their order. */
  function Where<T(!new)>(rows: seq<T>, p: T -> bool): (r: seq<T>)
    ensures |r| <= |rows|
    ensures forall x :: x in r <==> x in rows && p(x)
    decreases |rows|
  {
    if rows == [] then []
    else Where(rows[..|rows| - 1], p) + (if p(rows[|rows| - 1]) then [rows[|rows| - 1]] else [])
  }

  /** A row added to the table is selected exactly when it satisfies `p`. */
  lemma WhereAppend<T(!new)>(rows: seq<T>, x: T, p: T -> bool)
    ensures Where(rows + [x], p) == Where(rows, p) + (if p(x) then [x] else [])
  {
    assert (rows + [x])[..|rows|] == rows;
  }

  /** `WHERE` keeps every selected row as often as the table holds it. */
  lemma {:induction false} WhereCounts<T(!new)>(rows: seq<T>, p: T -> bool, x: T)
    ensures multiset(Where(rows, p))[x] == if p(x) then multiset(rows)[x] else 0
    decreases |rows|
  {
    if rows != [] {
      var front := rows[..|rows| - 1];
      WhereCounts(front, p, x);
      assert rows == front + [rows[|rows| - 1]];
    }
  }

  /** `GROUP BY key HAVING COUNT(*) > 1`: the groups left are the keys occurring more than once,
      each with its number of occurrences. */
  lemma HavingGroup<K(!new)>(s: seq<K>, x: Group<K>)
    requires x in MoreThanOnce(Tally(s))
    ensures x.count == multiset(s)[x.key] > 1
  {
    var g := Tally(s);
    var j :| 0 <= j < |g| && g[j] == x;
    TallyGroup(s, j);
  }

  lemma KeptKey<K(!new)>(g: seq<Group<K>>, j: nat)
    requires j < |g| && g[j].count > 1
    ensures g[j].key in Keys(MoreThanOnce(g))
  {
    var h := MoreThanOnce(g);
    assert g[j] in h;
    var m :| 0 <= m < |h| && h[m] == g[j];
    assert Keys(h)[m] == g[j].key;
  }

  lemma RepeatedKeyKept<K(!new)>(s: seq<K>, k: K)
    requires multiset(s)[k] > 1
    ensures k in Keys(MoreThanOnce(Tally(s)))
  {
    var g := Tally(s);
    assert k in s;
    assert k in Keys(g);
    var j :| 0 <= j < |g| && g[j].key == k;
    TallyGroup(s, j);
    KeptKey(g, j);
  }

  lemma HavingKey<K(!new)>(s: seq<K>, k: K)
    ensures k in Keys(MoreThanOnce(Tally(s))) <==> multiset(s)[k] > 1
  {
    var h := MoreThanOnce(Tally(s));
    if multiset(s)[k] > 1 {
      RepeatedKeyKept(s, k);
    }
    if k in Keys(h) {
      var m :| 0 <= m < |h| && h[m].key == k;
      assert h[m] in h;
      HavingGroup(s, h[m]);
    }
  }

  lemma HavingFacts<K(!new)>(s: seq<K>)
    ensures forall x :: x in MoreThanOnce(Tally(s)) ==> x.count == multiset(s)[x.key] > 1
    ensures forall k :: k in Keys(MoreThanOnce(Tally(s))) <==> multiset(s)[k] > 1
  {
    forall x | x in MoreThanOnce(Tally(s)) ensures x.count == multiset(s)[x.key] > 1 {
      HavingGroup(s, x);
    }
    forall k ensures k in Keys(MoreThanOnce(Tally(s))) <==> multiset(s)[k] > 1 {
      HavingKey(s, k);
    }
  }

  /** `HAVING COUNT(*) > 1 ORDER BY ... LIMIT n` under a total order: at most `n` groups in
      order, each a key repeated in `s` with its number of occurrences, and every repeated key
      when there are no more than `n` of them. */
  lemma TopRepeatedFacts<K(!new)>(s: seq<K>, le: (Group<K>, Group<K>) -> bool, n: nat, r: seq<Group<K>>)
    requires Connected(le) && Transitive(le)
    requires r == Limit(Sort(MoreThanOnce(Tally(s)), le), n)
    ensures |r| <= n && Ordered(r, le)
    ensures |MoreThanOnce(Tally(s))| > n ==> |r| == n
    ensures forall i :: 0 <= i < |r| ==> r[i].count == multiset(s)[r[i].key] > 1
    ensures |MoreThanOnce(Tally(s))| <= n ==> forall k :: k in Keys(r) <==> multiset(s)[k] > 1
    ensures forall k, j :: multiset(s)[k] > 1 && k !in Keys(r) && 0 <= j < |r| ==>
              le(r[j], Group(k, multiset(s)[k]))
  {
    forall k, j | multiset(s)[k] > 1 && k !in Keys(r) && 0 <= j < |r|
      ensures le(r[j], Group(k, multiset(s)[k]))
    {
      RepeatedLeftOut(s, le, n, k, j);
    }
    var h := MoreThanOnce(Tally(s));
    var sorted := Sort(h, le);
    LimitOrdered(sorted, n, le);
    HavingFacts(s);
    forall i | 0 <= i < |r| ensures r[i].count == multiset(s)[r[i].key] > 1 {
      assert r[i] == sorted[i];
      assert r[i] in multiset(h);
    }
    if |h| <= n {
      SameKeysOfPermutation(h, sorted);
      SameKeysOfPermutation(sorted, h);
      assert r == sorted;
    }
  }

  /** A key repeated in `s` but not kept ranks no higher than any kept group. */
  lemma RepeatedLeftOut<K(!new)>(s: seq<K>, le: (Group<K>, Group<K>) -> bool, n: nat, k: K, j: nat)
    requires Connected(le) && Transitive(le)
    requires multiset(s)[k] > 1 && k !in Keys(Limit(Sort(MoreThanOnce(Tally(s)), le), n))
    requires j < |Limit(Sort(MoreThanOnce(Tally(s)), le), n)|
    ensures le(Limit(Sort(MoreThanOnce(Tally(s)), le), n)[j], Group(k, multiset(s)[k]))
  {
    var h := MoreThanOnce(Tally(s));
    RepeatedKeyKept(s, k);
    var m :| 0 <= m < |h| && h[m].key == k;
    assert h[m] in h;
    HavingGroup(s, h[m]);
    assert h[m] == Group(k, multiset(s)[k]);
    SortLimitTop(h, le, n, h[m], j);
  }
}
