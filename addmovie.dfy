/** The credit normaliser and the IMDb id extraction used when a movie is added. */
module AddMovie {
  import opened Wrappers
  import opened Text
  import opened Schema
  import Form

  /** A cast entry of the catalog's credits response. */
  datatype CastMember = CastMember(name: string, id: int)
  /** A crew entry of the catalog's credits response; `job` is the catalog's job title. */
  datatype CrewMember = CrewMember(name: string, id: int, job: string, department: string)

  /** The crew departments whose members are kept. */
  const ValidDepartments: seq<string> := ["Writing", "Sound", "Production", "Directing"]

  /** The crew job titles that are kept, and the role each one is stored under. */
  const Jobs: map<string, Job> := map[
    "Screenplay" := Writer,
    "Writer" := Writer,
    "Original Music Composer" := Composer,
    "Producer" := Producer,
    "Associate Producer" := Producer,
    "Executive Producer" := Producer,
    "Director" := Director
  ]

  /** `person: { connectOrCreate: { create: { name, original_id }, where: { original_id } } }`. */
  datatype PersonCreate = PersonCreate(name: string, originalId: int)
  datatype PersonWhere = PersonWhere(originalId: int)
  datatype ConnectOrCreate = ConnectOrCreate(create: PersonCreate, where: PersonWhere)

  /** One element of the `movie_person` create list. */
  datatype Credit = Credit(job: Job, person: ConnectOrCreate)

  /** The deduplication key `${id}-${job}`. A decimal integer followed by "-" and a role name
      that holds no "-" is read back uniquely, so the pair stands for the string. */
  datatype Key = Key(personId: int, job: Job)

  function Link(name: string, id: int): ConnectOrCreate {
    ConnectOrCreate(PersonCreate(name, id), PersonWhere(id))
  }

  function CastCredit(c: CastMember): Credit {
    Credit(Cast, Link(c.name, c.id))
  }

  /** A crew entry is kept when its job title is in the table and its department is allowed. */
  predicate Qualifies(c: CrewMember) {
    c.job in Jobs && c.department in ValidDepartments
  }

  function CrewCredit(c: CrewMember): Credit
    requires Qualifies(c)
  {
    Credit(Jobs[c.job], Link(c.name, c.id))
  }

  function KeyOf(c: Credit): Key {
    Key(c.person.where.originalId, c.job)
  }

  // ---------------------------------------------------------------------------------------
  // The specification: the list of `set` calls, and what an insertion-ordered map holds
  // after them.

  /** One cast-role credit per cast entry, in order. */
  function CastCredits(cast: seq<CastMember>): seq<Credit> {
    if cast == [] then [] else CastCredits(cast[..|cast| - 1]) + [CastCredit(cast[|cast| - 1])]
  }

  lemma {:induction false} CastCreditsFacts(cast: seq<CastMember>)
    ensures |CastCredits(cast)| == |cast|
    ensures forall j :: 0 <= j < |cast| ==> CastCredits(cast)[j] == CastCredit(cast[j])
  {
    if cast != [] {
      CastCreditsFacts(cast[..|cast| - 1]);
    }
  }

  /** One credit per kept crew entry, in order. */
  function CrewCredits(crew: seq<CrewMember>): seq<Credit> {
    if crew == [] then []
    else
      var last := crew[|crew| - 1];
      CrewCredits(crew[..|crew| - 1]) + (if Qualifies(last) then [CrewCredit(last)] else [])
  }

  /** The crew credits are exactly the credits of the kept crew entries; none has the cast role. */
  lemma {:induction false} CrewCreditsFacts(crew: seq<CrewMember>)
    ensures |CrewCredits(crew)| <= |crew|
    ensures forall c :: c in CrewCredits(crew) <==>
              exists j :: 0 <= j < |crew| && Qualifies(crew[j]) && c == CrewCredit(crew[j])
    ensures forall c :: c in CrewCredits(crew) ==> c.job != Cast
  {
    if crew != [] {
      var init, last := crew[..|crew| - 1], crew[|crew| - 1];
      CrewCreditsFacts(init);
      var r := CrewCredits(crew);
      assert forall j :: 0 <= j < |init| ==> init[j] == crew[j];
      forall c | c in r ensures exists j :: 0 <= j < |crew| && Qualifies(crew[j]) && c == CrewCredit(crew[j]) {
        if c in CrewCredits(init) {
          var j :| 0 <= j < |init| && Qualifies(init[j]) && c == CrewCredit(init[j]);
          assert crew[j] == init[j];
        } else {
          assert crew[|crew| - 1] == last;
        }
      }
      forall c | (exists j :: 0 <= j < |crew| && Qualifies(crew[j]) && c == CrewCredit(crew[j])) ensures c in r {
        var j :| 0 <= j < |crew| && Qualifies(crew[j]) && c == CrewCredit(crew[j]);
        if j < |init| {
          assert crew[j] == init[j];
        }
      }
    }
  }

  /** Every `persons.set` the two loops perform, in order. */
  function Insertions(cast: seq<CastMember>, crew: seq<CrewMember>): seq<Credit> {
    CastCredits(cast) + CrewCredits(crew)
  }

  predicate Occurs(es: seq<Credit>, k: Key) {
    exists i :: 0 <= i < |es| && KeyOf(es[i]) == k
  }

  /** The keys of `es` in the order of their first occurrence. */
  function FirstKeys(es: seq<Credit>): seq<Key> {
    if es == [] then []
    else
      var ks := FirstKeys(es[..|es| - 1]);
      var k := KeyOf(es[|es| - 1]);
      if k in ks then ks else ks + [k]
  }

  /** The last credit of `es` with key `k`. */
  function LastWith(es: seq<Credit>, k: Key): (r: Option<Credit>)
    ensures r.Some? <==> Occurs(es, k)
    ensures r.Some? ==> r.value in es && KeyOf(r.value) == k
  {
    if es == [] then None
    else if KeyOf(es[|es| - 1]) == k then Some(es[|es| - 1])
    else
      var r := LastWith(es[..|es| - 1], k);
      assert Occurs(es, k) ==> Occurs(es[..|es| - 1], k) by {
        if Occurs(es, k) {
          var i :| 0 <= i < |es| && KeyOf(es[i]) == k;
          assert es[..|es| - 1][i] == es[i];
        }
      }
      r
  }

  /** The position of the first credit of `es` with key `k`, or `|es|` when there is none. */
  function FirstIndex(es: seq<Credit>, k: Key): (r: nat)
    ensures r <= |es|
    ensures r < |es| <==> Occurs(es, k)
    ensures r < |es| ==> KeyOf(es[r]) == k
    ensures forall i :: 0 <= i < r ==> KeyOf(es[i]) != k
  {
    if es == [] then 0
    else if KeyOf(es[0]) == k then 0
    else
      var r := 1 + FirstIndex(es[1..], k);
      assert forall i :: 1 <= i <= |es[1..]| ==> es[i] == es[1..][i - 1];
      r
  }

  lemma NoDupHere(ks: seq<Key>, k: Key)
    requires NoDup(ks) && k !in ks
    ensures NoDup(ks + [k])
  {
  }

  predicate NoDup(ks: seq<Key>) {
    forall i, j :: 0 <= i < j < |ks| ==> ks[i] != ks[j]
  }

  /** The first-occurrence keys are the keys that occur, each once. */
  lemma {:induction false} FirstKeysFacts(es: seq<Credit>)
    ensures forall k :: k in FirstKeys(es) <==> Occurs(es, k)
    ensures NoDup(FirstKeys(es))
    ensures |FirstKeys(es)| <= |es|
  {
    if es != [] {
      var init := es[..|es| - 1];
      FirstKeysFacts(init);
      forall k ensures Occurs(es, k) <==> Occurs(init, k) || k == KeyOf(es[|es| - 1]) {
        if Occurs(es, k) && k != KeyOf(es[|es| - 1]) {
          var i :| 0 <= i < |es| && KeyOf(es[i]) == k;
          assert init[i] == es[i];
        }
        if Occurs(init, k) {
          var i :| 0 <= i < |init| && KeyOf(init[i]) == k;
          assert es[i] == init[i];
        }
      }
    }
  }

  /** The values of an insertion-ordered map after the insertions `es`: one per key, in
      first-insertion order, each the last value set for its key. */
  function Collapse(es: seq<Credit>): (r: seq<Credit>)
    ensures |r| == |FirstKeys(es)|
    ensures forall i :: 0 <= i < |r| ==> Some(r[i]) == LastWith(es, FirstKeys(es)[i])
  {
    FirstKeysFacts(es);
    var ks := FirstKeys(es);
    seq(|ks|, i requires 0 <= i < |ks| => LastWith(es, ks[i]).value)
  }

  /** What `getCastAndCrew(cast, crew)` returns. */
  function CastAndCrew(cast: seq<CastMember>, crew: seq<CrewMember>): seq<Credit> {
    Collapse(Insertions(cast, crew))
  }

  // ---------------------------------------------------------------------------------------
  // The implementation: JavaScript's `Map`.

  /** An insertion-ordered map from deduplication key to credit (`new Map()`). */
  class PersonMap {
    var keys: seq<Key>
    var values: map<Key, Credit>

    ghost predicate Valid()
      reads this
    {
      (forall k :: k in values <==> k in keys) && NoDup(keys)
    }

    constructor ()
      ensures Valid() && keys == [] && values == map[]
    {
      keys := [];
      values := map[];
    }

    /** `map.set(k, v)`: a new key goes to the end; an existing key keeps its place and gets
        the new value. */
    method Set(k: Key, v: Credit)
      requires Valid()
      modifies this
      ensures Valid()
      ensures values == old(values)[k := v]
      ensures keys == if k in old(values) then old(keys) else old(keys) + [k]
    {
      if k !in values {
        NoDupHere(keys, k);
        keys := keys + [k];
      }
      values := values[k := v];
    }

    /** `Array.from(map.values())`. */
    function Values(): (r: seq<Credit>)
      reads this
      requires Valid()
      ensures |r| == |keys| && forall i :: 0 <= i < |keys| ==> r[i] == values[keys[i]]
    {
      seq(|keys|, i reads this requires 0 <= i < |keys| && Valid() => values[keys[i]])
    }
  }

  /** The map holds exactly what the insertions `es` leave in an insertion-ordered map. */
  ghost predicate Holds(m: PersonMap, es: seq<Credit>)
    reads m
  {
    m.Valid() && Tracks(m.keys, m.values, es)
  }

  /** `keys` and `values` are what the insertions `es` leave. */
  ghost predicate Tracks(keys: seq<Key>, values: map<Key, Credit>, es: seq<Credit>) {
    && keys == FirstKeys(es)
    && forall k :: k in values ==> LastWith(es, k) == Some(values[k])
  }

  /** One more insertion, seen from the specification. */
  lemma SnocFacts(es: seq<Credit>, e: Credit)
    ensures FirstKeys(es + [e]) == if KeyOf(e) in FirstKeys(es) then FirstKeys(es) else FirstKeys(es) + [KeyOf(e)]
    ensures forall k :: LastWith(es + [e], k) == if KeyOf(e) == k then Some(e) else LastWith(es, k)
  {
    assert (es + [e])[..|es|] == es;
  }

  /** `map.set(KeyOf(e), e)` keeps the map in step with one more insertion. */
  lemma SetTracks(keys: seq<Key>, values: map<Key, Credit>, es: seq<Credit>, e: Credit)
    requires Tracks(keys, values, es) && forall k :: k in values <==> k in keys
    ensures Tracks(if KeyOf(e) in values then keys else keys + [KeyOf(e)], values[KeyOf(e) := e], es + [e])
  {
    SnocFacts(es, e);
  }

  lemma HoldsValues(m: PersonMap, es: seq<Credit>)
    requires Holds(m, es)
    ensures m.Values() == Collapse(es)
  {
    FirstKeysFacts(es);
    var r, c := m.Values(), Collapse(es);
    forall i | 0 <= i < |r| ensures r[i] == c[i] {
      assert m.keys[i] in m.values;
    }
  }

  /** `getCastAndCrew`: puts every cast entry and every kept crew entry into a map keyed by
      person and role, and returns the map's values. */
  method GetCastAndCrew(cast: seq<CastMember>, crew: seq<CrewMember>) returns (r: seq<Credit>)
    ensures r == CastAndCrew(cast, crew)
  {
    var persons := new PersonMap();
    for i := 0 to |cast|
      invariant Holds(persons, CastCredits(cast[..i]))
    {
      var credit := cast[i];
      var entry := Credit(Cast, Link(credit.name, credit.id));
      assert cast[..i + 1][..i] == cast[..i];
      assert CastCredits(cast[..i + 1]) == CastCredits(cast[..i]) + [entry];
      SetTracks(persons.keys, persons.values, CastCredits(cast[..i]), entry);
      persons.Set(Key(credit.id, Cast), entry);
    }
    assert cast[..|cast|] == cast;
    assert CastCredits(cast) + CrewCredits(crew[..0]) == CastCredits(cast);
    for j := 0 to |crew|
      invariant Holds(persons, CastCredits(cast) + CrewCredits(crew[..j]))
    {
      var credit := crew[j];
      assert crew[..j + 1][..j] == crew[..j];
      ghost var before := CastCredits(cast) + CrewCredits(crew[..j]);
      if credit.job in Jobs && credit.department in ValidDepartments {
        var entry := Credit(Jobs[credit.job], Link(credit.name, credit.id));
        assert CastCredits(cast) + CrewCredits(crew[..j + 1]) == before + [entry];
        SetTracks(persons.keys, persons.values, before, entry);
        persons.Set(Key(credit.id, Jobs[credit.job]), entry);
      } else {
        assert CrewCredits(crew[..j + 1]) == CrewCredits(crew[..j]);
      }
    }
    assert crew[..|crew|] == crew;
    HoldsValues(persons, Insertions(cast, crew));
    r := persons.Values();
  }

  // ---------------------------------------------------------------------------------------
  // What the normaliser promises.

  /** The dedup keys of a list of credits. */
  function CreditKeys(r: seq<Credit>): seq<Key> {
    seq(|r|, i requires 0 <= i < |r| => KeyOf(r[i]))
  }

  lemma CollapseKeys(es: seq<Credit>)
    ensures CreditKeys(Collapse(es)) == FirstKeys(es)
  {
  }

  /** Extending the insertions by one credit relates the maps before and after: a new key
      appends the credit; a key already present keeps its position and takes the new credit
      (the semantics of `Map.prototype.set`). */
  lemma SetSemantics(es: seq<Credit>, e: Credit)
    ensures KeyOf(e) !in CreditKeys(Collapse(es)) ==> Collapse(es + [e]) == Collapse(es) + [e]
    ensures forall p :: 0 <= p < |Collapse(es)| && KeyOf(Collapse(es)[p]) == KeyOf(e) ==>
              Collapse(es + [e]) == Collapse(es)[p := e]
  {
    if KeyOf(e) !in CreditKeys(Collapse(es)) {
      SetAppends(es, e);
    }
    forall p | 0 <= p < |Collapse(es)| && KeyOf(Collapse(es)[p]) == KeyOf(e)
      ensures Collapse(es + [e]) == Collapse(es)[p := e]
    {
      SetReplaces(es, e, p);
    }
  }

  lemma SetAppends(es: seq<Credit>, e: Credit)
    requires KeyOf(e) !in CreditKeys(Collapse(es))
    ensures Collapse(es + [e]) == Collapse(es) + [e]
  {
    SnocFacts(es, e);
    CollapseKeys(es);
    var c, c' := Collapse(es), Collapse(es + [e]);
    var ks := FirstKeys(es);
    assert FirstKeys(es + [e]) == ks + [KeyOf(e)];
    forall i | 0 <= i < |c'| ensures c'[i] == (c + [e])[i] {
      if i < |c| {
        assert ks[i] != KeyOf(e);
        assert Some(c'[i]) == LastWith(es + [e], ks[i]) == LastWith(es, ks[i]) == Some(c[i]);
      } else {
        assert Some(c'[i]) == LastWith(es + [e], KeyOf(e)) == Some(e);
      }
    }
  }

  lemma SetReplaces(es: seq<Credit>, e: Credit, p: nat)
    requires p < |Collapse(es)| && KeyOf(Collapse(es)[p]) == KeyOf(e)
    ensures Collapse(es + [e]) == Collapse(es)[p := e]
  {
    SnocFacts(es, e);
    CollapseKeys(es);
    FirstKeysFacts(es);
    var c, c' := Collapse(es), Collapse(es + [e]);
    assert KeyOf(e) in FirstKeys(es) by {
      assert CreditKeys(c)[p] == KeyOf(e);
    }
    var ks := FirstKeys(es);
    assert FirstKeys(es + [e]) == ks;
    forall i | 0 <= i < |c'| ensures c'[i] == c[p := e][i] {
      if i != p {
        assert ks[i] != ks[p] == KeyOf(e);
        assert Some(c'[i]) == LastWith(es + [e], ks[i]) == LastWith(es, ks[i]) == Some(c[i]);
      } else {
        assert Some(c'[i]) == LastWith(es + [e], KeyOf(e)) == Some(e);
      }
    }
  }

  lemma {:induction false} CollapseMember(es: seq<Credit>, c: Credit)
    requires c in Collapse(es)
    ensures c in es
  {
    var i :| 0 <= i < |Collapse(es)| && Collapse(es)[i] == c;
    assert Some(c) == LastWith(es, FirstKeys(es)[i]);
  }

  /** Every credit comes from an entry: a cast-role credit from a cast entry, any other credit
      from a kept crew entry with the role its job title maps to; and each person instruction
      looks up and creates the same catalog id. */
  lemma CreditOrigin(cast: seq<CastMember>, crew: seq<CrewMember>)
    ensures forall c :: c in CastAndCrew(cast, crew) && c.job == Cast ==>
              exists j :: 0 <= j < |cast| && c == CastCredit(cast[j])
    ensures forall c :: c in CastAndCrew(cast, crew) && c.job != Cast ==>
              exists j :: 0 <= j < |crew| && Qualifies(crew[j]) && c == CrewCredit(crew[j])
                          && c.job == Jobs[crew[j].job]
    ensures forall c :: c in CastAndCrew(cast, crew) ==>
              c.person.create.originalId == c.person.where.originalId
  {
    var es := Insertions(cast, crew);
    CrewCreditsFacts(crew);
    CastCreditsFacts(cast);
    forall c | c in CastAndCrew(cast, crew)
      ensures c.job == Cast ==> exists j :: 0 <= j < |cast| && c == CastCredit(cast[j])
      ensures c.job != Cast ==> exists j :: 0 <= j < |crew| && Qualifies(crew[j]) && c == CrewCredit(crew[j])
      ensures c.person.create.originalId == c.person.where.originalId
    {
      CollapseMember(es, c);
      if c in CastCredits(cast) {
        var j :| 0 <= j < |cast| && CastCredits(cast)[j] == c;
      }
    }
  }

  /** Every cast entry and every kept crew entry has a credit under its person and role. */
  lemma EveryEntryCredited(cast: seq<CastMember>, crew: seq<CrewMember>)
    ensures forall j :: 0 <= j < |cast| ==> Key(cast[j].id, Cast) in CreditKeys(CastAndCrew(cast, crew))
    ensures forall j :: 0 <= j < |crew| && Qualifies(crew[j]) ==>
              Key(crew[j].id, Jobs[crew[j].job]) in CreditKeys(CastAndCrew(cast, crew))
  {
    var es := Insertions(cast, crew);
    CollapseKeys(es);
    FirstKeysFacts(es);
    CastEntriesInserted(cast, crew);
    CrewEntriesInserted(cast, crew);
  }

  lemma CastEntriesInserted(cast: seq<CastMember>, crew: seq<CrewMember>)
    ensures forall j :: 0 <= j < |cast| ==> Occurs(Insertions(cast, crew), Key(cast[j].id, Cast))
  {
    CastCreditsFacts(cast);
    forall j | 0 <= j < |cast| ensures Occurs(Insertions(cast, crew), Key(cast[j].id, Cast)) {
      assert KeyOf(Insertions(cast, crew)[j]) == Key(cast[j].id, Cast);
    }
  }

  lemma CrewEntriesInserted(cast: seq<CastMember>, crew: seq<CrewMember>)
    ensures forall j :: 0 <= j < |crew| && Qualifies(crew[j]) ==>
              Occurs(Insertions(cast, crew), Key(crew[j].id, Jobs[crew[j].job]))
  {
    var es := Insertions(cast, crew);
    CrewCreditsFacts(crew);
    CastCreditsFacts(cast);
    forall j | 0 <= j < |crew| && Qualifies(crew[j])
      ensures Occurs(es, Key(crew[j].id, Jobs[crew[j].job]))
    {
      var c := CrewCredit(crew[j]);
      assert c in CrewCredits(crew);
      var i :| 0 <= i < |CrewCredits(crew)| && CrewCredits(crew)[i] == c;
      assert KeyOf(es[|cast| + i]) == KeyOf(c);
    }
  }

  /** At most one credit per person and role, so never more credits than entries. */
  lemma OneCreditPerKey(cast: seq<CastMember>, crew: seq<CrewMember>)
    ensures var r := CastAndCrew(cast, crew);
      forall i, j :: 0 <= i < j < |r| ==> KeyOf(r[i]) != KeyOf(r[j])
    ensures |CastAndCrew(cast, crew)| <= |cast| + |crew|
  {
    var es := Insertions(cast, crew);
    FirstKeysFacts(es);
    CollapseKeys(es);
    CastCreditsFacts(cast);
    CrewCreditsFacts(crew);
    var r := CastAndCrew(cast, crew);
    forall i, j | 0 <= i < j < |r| ensures KeyOf(r[i]) != KeyOf(r[j]) {
      assert CreditKeys(r)[i] == KeyOf(r[i]) && CreditKeys(r)[j] == KeyOf(r[j]);
    }
  }

  lemma {:induction false} LastWithAt(es: seq<Credit>, i: nat)
    requires i < |es|
    requires forall l :: i < l < |es| ==> KeyOf(es[l]) != KeyOf(es[i])
    ensures LastWith(es, KeyOf(es[i])) == Some(es[i])
  {
    if i < |es| - 1 {
      LastWithAt(es[..|es| - 1], i);
    }
  }

  /** Of several cast entries for one person, the credit carries the last entry's name. */
  lemma LaterCastEntryWins(cast: seq<CastMember>, crew: seq<CrewMember>, j: nat)
    requires j < |cast|
    requires forall l :: j < l < |cast| ==> cast[l].id != cast[j].id
    ensures CastCredit(cast[j]) in CastAndCrew(cast, crew)
  {
    var es := Insertions(cast, crew);
    CrewCreditsFacts(crew);
    CastCreditsFacts(cast);
    forall l | j < l < |es| ensures KeyOf(es[l]) != KeyOf(es[j]) {
      if l >= |cast| {
        assert es[l] in CrewCredits(crew);
      }
    }
    LastWithAt(es, j);
    FirstKeysFacts(es);
    assert Occurs(es, KeyOf(es[j]));
    var p :| 0 <= p < |FirstKeys(es)| && FirstKeys(es)[p] == KeyOf(es[j]);
    assert Collapse(es)[p] == es[j];
  }

  /** A person in the cast who also holds a kept crew job gets two credits. */
  lemma CastAndCrewSamePerson(cast: seq<CastMember>, crew: seq<CrewMember>, i: nat, j: nat)
    requires i < |cast| && j < |crew| && Qualifies(crew[j]) && cast[i].id == crew[j].id
    ensures var r := CastAndCrew(cast, crew);
      exists a, b :: 0 <= a < |r| && 0 <= b < |r| && a != b
        && KeyOf(r[a]) == Key(cast[i].id, Cast) && KeyOf(r[b]) == Key(cast[i].id, Jobs[crew[j].job])
  {
    EveryEntryCredited(cast, crew);
    var r := CastAndCrew(cast, crew);
    var ks := CreditKeys(r);
    var a :| 0 <= a < |ks| && ks[a] == Key(cast[i].id, Cast);
    var b :| 0 <= b < |ks| && ks[b] == Key(cast[i].id, Jobs[crew[j].job]);
    assert KeyOf(CrewCredit(crew[j])) != Key(cast[i].id, Cast) by {
      CrewCreditsFacts(crew);
      assert CrewCredit(crew[j]) in CrewCredits(crew);
    }
  }

  lemma {:induction false} CrewCreditsAppend(a: seq<CrewMember>, b: seq<CrewMember>)
    ensures CrewCredits(a + b) == CrewCredits(a) + CrewCredits(b)
  {
    if b != [] {
      assert (a + b)[..|a + b| - 1] == a + b[..|b| - 1];
      CrewCreditsAppend(a, b[..|b| - 1]);
    } else {
      assert a + b == a;
    }
  }

  /** A crew entry whose job title is not in the table or whose department is not allowed
      changes nothing, wherever it stands. */
  lemma UnqualifiedCrewIgnored(cast: seq<CastMember>, a: seq<CrewMember>, x: CrewMember, b: seq<CrewMember>)
    requires !Qualifies(x)
    ensures CastAndCrew(cast, a + [x] + b) == CastAndCrew(cast, a + b)
  {
    CrewCreditsAppend(a + [x], b);
    CrewCreditsAppend(a, [x]);
    CrewCreditsAppend(a, b);
    assert CrewCredits([x]) == [] by {
      assert [x][..0] == [];
    }
    assert a + [x] + b == (a + [x]) + b;
    assert Insertions(cast, a + [x] + b) == Insertions(cast, a + b);
  }

  /** Appending an entry moves no key's first occurrence, and gives a new key the last place. */
  lemma FirstIndexSnoc(init: seq<Credit>, e: Credit, k: Key)
    ensures Occurs(init, k) ==> FirstIndex(init + [e], k) == FirstIndex(init, k)
    ensures !Occurs(init, k) && KeyOf(e) == k ==> FirstIndex(init + [e], k) == |init|
  {
    var es := init + [e];
    var f := FirstIndex(init, k);
    assert forall l :: 0 <= l < |init| ==> es[l] == init[l];
    if f < |init| {
      assert KeyOf(es[f]) == k;
    } else if KeyOf(e) == k {
      assert KeyOf(es[|init|]) == k;
    }
  }

  lemma {:induction false} FirstKeysOrder(es: seq<Credit>)
    ensures forall i, j :: 0 <= i < j < |FirstKeys(es)| ==>
              FirstIndex(es, FirstKeys(es)[i]) < FirstIndex(es, FirstKeys(es)[j])
  {
    if es != [] {
      var init, e := es[..|es| - 1], es[|es| - 1];
      assert es == init + [e];
      FirstKeysOrder(init);
      FirstKeysFacts(init);
      SnocFacts(init, e);
      var ks := FirstKeys(init);
      forall k | k in ks ensures FirstIndex(es, k) == FirstIndex(init, k) {
        FirstIndexSnoc(init, e, k);
      }
      if KeyOf(e) !in ks {
        FirstIndexSnoc(init, e, KeyOf(e));
      }
    }
  }

  /** The credits come out in the order in which their keys were first set. */
  lemma InsertionOrder(cast: seq<CastMember>, crew: seq<CrewMember>)
    ensures var es, r := Insertions(cast, crew), CastAndCrew(cast, crew);
      forall i, j :: 0 <= i < j < |r| ==> FirstIndex(es, KeyOf(r[i])) < FirstIndex(es, KeyOf(r[j]))
  {
    var es := Insertions(cast, crew);
    FirstKeysOrder(es);
    CollapseKeys(es);
    var r := Collapse(es);
    assert forall i :: 0 <= i < |r| ==> KeyOf(r[i]) == CreditKeys(r)[i];
  }

  /** Two crew entries for one person whose titles map to the same role give one credit. */
  lemma ProducerTitlesCollapse()
    ensures CastAndCrew([], [CrewMember("Ada", 7, "Producer", "Production"),
                             CrewMember("Ada", 7, "Executive Producer", "Production")])
            == [Credit(Producer, Link("Ada", 7))]
  {
    var crew := [CrewMember("Ada", 7, "Producer", "Production"),
                 CrewMember("Ada", 7, "Executive Producer", "Production")];
    var c := Credit(Producer, Link("Ada", 7));
    assert crew[..1] == [crew[0]];
    assert CrewCredits(crew[..1]) == [c];
    assert Insertions([], crew) == [c, c];
    assert [c, c][..1] == [c];
    assert [c][..0] == [];
    assert FirstKeys([c]) == [KeyOf(c)];
    assert FirstKeys([c, c]) == [KeyOf(c)];
  }

  // ---------------------------------------------------------------------------------------
  // `imdbId`: `input?.toString().match(/tt\d+/)?.[0]`.

  /** A match of `tt\d+` can start at `i`. */
  predicate MatchAt(s: string, i: nat) {
    i + 2 < |s| && s[i] == 't' && s[i + 1] == 't' && IsDigit(s[i + 2])
  }

  /** The length of the run of digits starting at `i`: what the greedy `\d+` takes. */
  function DigitRun(s: string, i: nat): (n: nat)
    requires i <= |s|
    ensures i + n <= |s| && AllDigits(s[i..i + n])
    ensures i + n == |s| || !IsDigit(s[i + n])
    decreases |s| - i
  {
    if i < |s| && IsDigit(s[i]) then
      var n := 1 + DigitRun(s, i + 1);
      assert s[i..i + n] == [s[i]] + s[i + 1..i + n];
      n
    else 0
  }

  /** The leftmost position at or after `i` where a match starts. */
  function FindMatch(s: string, i: nat): (r: Option<nat>)
    requires i <= |s|
    ensures r.Some? ==> i <= r.value && MatchAt(s, r.value)
    ensures forall j: nat :: i <= j && (r.None? || j < r.value) ==> !MatchAt(s, j)
    decreases |s| - i
  {
    if i == |s| then None
    else if MatchAt(s, i) then Some(i)
    else FindMatch(s, i + 1)
  }

  /** `m` is the match of `tt\d+` starting at `i` in `s`, and no match starts before `i`. */
  ghost predicate LeftmostMatch(s: string, i: nat, m: string) {
    && MatchAt(s, i)
    && (forall j: nat :: j < i ==> !MatchAt(s, j))
    && i + |m| <= |s| && m == s[i..i + |m|]
    && |m| >= 3 && m[..2] == "tt" && AllDigits(m[2..])
    && (i + |m| == |s| || !IsDigit(s[i + |m|]))
  }

  /** `s.match(/tt\d+/)?.[0]`: the leftmost match, with the longest digit run. */
  function MatchTt(s: string): (r: Option<string>)
    ensures r.None? <==> forall j: nat :: !MatchAt(s, j)
    ensures r.Some? ==> exists i: nat :: LeftmostMatch(s, i, r.value)
  {
    match FindMatch(s, 0)
    case None => None
    case Some(p) =>
      var n := DigitRun(s, p + 2);
      var m := s[p..p + 2 + n];
      assert m[2..] == s[p + 2..p + 2 + n];
      assert LeftmostMatch(s, p, m);
      Some(m)
  }

  /** `imdbId(input)`: nothing for a missing field; otherwise the leftmost `tt\d+` in the
      field's string form, or nothing when there is none. */
  function ImdbId(input: Option<Form.Entry>): (r: Option<string>)
    ensures input.None? ==> r.None?
    ensures input.Some? ==> r == MatchTt(Form.ToText(input.value))
  {
    match input
    case None => None
    case Some(e) => MatchTt(Form.ToText(e))
  }

  /** The IMDb id `addMovie.test.ts` feeds in comes back unchanged. */
  lemma ImdbIdOfId()
    ensures ImdbId(Some(Form.Text("tt0111161"))) == Some("tt0111161")
  {
    var d := "0111161";
    assert AllDigits(d);
    LeadingMatch(d, "");
    assert "tt" + d + "" == "tt" + d == "tt0111161";
  }

  /** An IMDb title URL, such as `https://www.imdb.com/title/tt7767422/?ref_=nm_knf_t1` from
      `addMovie.test.ts`, gives the id it holds. */
  lemma ImdbIdOfUrl(d: string, rest: string)
    requires d != [] && AllDigits(d)
    requires rest == [] || !IsDigit(rest[0])
    ensures ImdbId(Some(Form.Text(UrlHost + "tt" + d + rest))) == Some("tt" + d)
  {
    UrlHostDigitFree();
    PrefixedId(UrlHost, d, rest);
  }

  /** An id after a digit-free prefix and before a part not starting with a digit is found. */
  lemma PrefixedId(host: string, d: string, rest: string)
    requires forall j :: 0 <= j < |host| ==> !IsDigit(host[j])
    requires d != [] && AllDigits(d)
    requires rest == [] || !IsDigit(rest[0])
    ensures MatchTt(host + "tt" + d + rest) == Some("tt" + d)
  {
    var q := "tt" + d + rest;
    LeadingMatch(d, rest);
    assert q[2] == d[0] && IsDigit(d[0]);
    DigitFreePrefix(host, q);
    AppendAssoc(host, "tt" + d, rest);
    AppendAssoc(host, "tt", d);
  }

  lemma AppendAssoc(a: string, b: string, c: string)
    ensures a + b + c == a + (b + c)
  {
  }

  /** The address part of an IMDb title URL, up to the id. */
  const UrlHost := "https://www.imdb.com/title/"

  lemma UrlHostDigitFree()
    ensures forall j :: 0 <= j < |UrlHost| ==> !IsDigit(UrlHost[j])
  {
  }

  /** `tt`, digits, then anything not starting with a digit: the match is `tt` and all those
      digits. */
  lemma {:induction false} LeadingMatch(d: string, rest: string)
    requires d != [] && AllDigits(d)
    requires rest == [] || !IsDigit(rest[0])
    ensures MatchTt("tt" + d + rest) == Some("tt" + d)
  {
    var s := "tt" + d + rest;
    assert MatchAt(s, 0);
    FindMatchFirst(s, 0, 0);
    DigitRunAll(s, 2, |d|);
    assert s[0..2 + |d|] == "tt" + d;
  }

  /** A run of `n` digits followed by a non-digit (or the end) has length `n`. */
  lemma {:induction false} DigitRunAll(s: string, i: nat, n: nat)
    requires i + n <= |s| && AllDigits(s[i..i + n])
    requires i + n == |s| || !IsDigit(s[i + n])
    ensures DigitRun(s, i) == n
    decreases n
  {
    if n > 0 {
      assert s[i..i + n][0] == s[i];
      assert s[i + 1..i + n] == s[i..i + n][1..];
      DigitRunAll(s, i + 1, n - 1);
    }
  }

  /** A prefix without digits, such as the address part of an IMDb URL, does not change the
      match when the rest starts with one. */
  lemma {:induction false} DigitFreePrefix(p: string, q: string)
    requires forall j :: 0 <= j < |p| ==> !IsDigit(p[j])
    requires MatchAt(q, 0)
    ensures MatchTt(p + q) == MatchTt(q)
  {
    var s := p + q;
    MatchShift(p, q);
    NoMatchBefore(p, q);
    FindMatchFirst(s, 0, |p|);
    FindMatchFirst(q, 0, 0);
    DigitRunShift(p, q, 2);
    ShiftedSlice(p, q, 0, 2 + DigitRun(q, 2));
    SameMatch(s, q, |p|);
  }

  /** Two strings whose leftmost matches carry the same text give the same match. */
  lemma SameMatch(s: string, q: string, i: nat)
    requires i + 2 <= |s| && 2 <= |q|
    requires FindMatch(s, 0) == Some(i) && FindMatch(q, 0) == Some(0)
    requires s[i..i + 2 + DigitRun(s, i + 2)] == q[0..2 + DigitRun(q, 2)]
    ensures MatchTt(s) == MatchTt(q)
  {
    var m := q[0..2 + DigitRun(q, 2)];
    MatchTtAt(s, i);
    assert MatchTt(s) == Some(m);
    MatchTtAt(q, 0);
  }

  /** The match is the leftmost `tt` followed by its whole run of digits. */
  lemma MatchTtAt(s: string, i: nat)
    requires i <= |s| && FindMatch(s, 0) == Some(i)
    ensures MatchTt(s) == Some(s[i..i + 2 + DigitRun(s, i + 2)])
  {
  }

  lemma MatchShift(p: string, q: string)
    requires MatchAt(q, 0)
    ensures MatchAt(p + q, |p|)
  {
    var s := p + q;
    assert s[|p|] == q[0] && s[|p| + 1] == q[1] && s[|p| + 2] == q[2];
  }

  lemma NoMatchBefore(p: string, q: string)
    requires forall j :: 0 <= j < |p| ==> !IsDigit(p[j])
    requires MatchAt(q, 0)
    ensures forall j: nat :: 0 <= j < |p| ==> !MatchAt(p + q, j)
  {
    forall j: nat | j < |p| ensures !MatchAt(p + q, j) {
      NoMatchInPrefix(p, q, j);
    }
  }

  /** No match starts inside a digit-free prefix: its third character is a digit. */
  lemma NoMatchInPrefix(p: string, q: string, j: nat)
    requires forall j :: 0 <= j < |p| ==> !IsDigit(p[j])
    requires MatchAt(q, 0) && j < |p|
    ensures !MatchAt(p + q, j)
  {
    var s := p + q;
    if j + 2 < |p| {
      assert s[j + 2] == p[j + 2];
    } else {
      assert s[j + 2] == q[j + 2 - |p|];
    }
  }

  /** A slice of `q` is the same slice, shifted, of `p + q`. */
  lemma ShiftedSlice(p: string, q: string, i: nat, k: nat)
    requires i <= k <= |q|
    ensures (p + q)[|p| + i..|p| + k] == q[i..k]
  {
  }

  /** Digit runs inside `q` are the same after a prefix is put in front. */
  lemma {:induction false} DigitRunShift(p: string, q: string, i: nat)
    requires i <= |q|
    ensures DigitRun(p + q, |p| + i) == DigitRun(q, i)
    decreases |q| - i
  {
    if i < |q| {
      assert (p + q)[|p| + i] == q[i];
      DigitRunShift(p, q, i + 1);
    }
  }

  /** When no match starts in `[k, i)` and one starts at `i`, the leftmost from `k` is `i`. */
  lemma {:induction false} FindMatchFirst(s: string, k: nat, i: nat)
    requires k <= i && MatchAt(s, i)
    requires forall j: nat :: k <= j < i ==> !MatchAt(s, j)
    ensures FindMatch(s, k) == Some(i)
    decreases i - k
  {
    if k < i {
      FindMatchFirst(s, k + 1, i);
    }
  }

  /** The code returns nothing for a bare catalog id, where the test at
      `addMovie.test.ts` line 5 expects the id back. */
  lemma BareCatalogIdIsDropped()
    ensures ImdbId(Some(Form.Text("0111161"))) == None
  {
    assert forall j: nat :: !MatchAt("0111161", j);
  }
}
