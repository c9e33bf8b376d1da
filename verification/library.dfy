/** The reference library of control definitions: its one-time seeding at
    startup, the capped case-insensitive search behind
    `GET /library/search` and the exact lookup behind
    `GET /library/get/{ref_id}`. */
module Library {
  import opened Wrappers
  import opened Records
  import opened SqlLike
  import opened Query

  /** The most rows one search returns. */
  const MaxResults: nat := 50

  /** One record of the seed catalog. `discussion` and `related` are None
      when the catalog has no such column. */
  datatype SeedRow = SeedRow(
    identifier: string,
    name: string,
    controlText: string,
    discussion: Option<string>,
    related: Option<string>)

  function FromSeed(row: SeedRow): ControlReference {
    ControlReference(row.identifier, row.name, row.controlText, row.discussion, row.related)
  }

  /** Startup seeding. `source` is the seed catalog's rows, or None when
      the catalog file does not exist. Rows are inserted only into an empty
      library, and only when the catalog exists. */
  function SeedReferenceLibrary(lib: Library, source: Option<seq<SeedRow>>): (r: Library)
    ensures |lib| > 0 || source.None? ==> r == lib
    ensures |lib| == 0 && source.Some? ==>
              && |r| == |source.value|
              && forall i :: 0 <= i < |r| ==> r[i] == FromSeed(source.value[i])
  {
    if |lib| == 0 && source.Some? then
      seq(|source.value|, i requires 0 <= i < |source.value| => FromSeed(source.value[i]))
    else lib
  }

  /** Seeding at every startup inserts nothing after the first: running it
      again leaves the library as one run did. */
  lemma SeedIdempotent(lib: Library, source: Option<seq<SeedRow>>)
    ensures SeedReferenceLibrary(SeedReferenceLibrary(lib, source), source)
         == SeedReferenceLibrary(lib, source)
  {
  }

  /** The search filter: the identifier or the name is LIKE `%q%`, ignoring
      ASCII case. */
  predicate RowMatches(c: ControlReference, q: string) {
    Like(c.identifier, Surround(q)) || Like(c.name, Surround(q))
  }

  /** Every matching row, in scan order, each as often as the library
      holds it. */
  function MatchingRows(lib: Library, q: string): (r: Library)
    ensures forall c :: multiset(r)[c] == if RowMatches(c, q) then multiset(lib)[c] else 0
    ensures forall c :: c in r <==> c in lib && RowMatches(c, q)
    ensures |r| <= |lib|
    ensures (forall i :: 0 <= i < |lib| ==> RowMatches(lib[i], q)) ==> r == lib
  {
    if |lib| == 0 then []
    else
      var rest := MatchingRows(lib[1..], q);
      assert lib == [lib[0]] + lib[1..];
      if RowMatches(lib[0], q) then [lib[0]] + rest else rest
  }

  lemma MatchingIsSubMultiset(lib: Library, q: string)
    ensures multiset(MatchingRows(lib, q)) <= multiset(lib)
  {
    var m := MatchingRows(lib, q);
    forall c ensures multiset(m)[c] <= multiset(lib)[c] {
    }
  }

  lemma PrefixIsSubMultiset<T>(m: seq<T>, k: nat)
    requires k <= |m|
    ensures multiset(m[..k]) <= multiset(m)
    ensures forall c :: c in m[..k] ==> c in m
  {
    assert m == m[..k] + m[k..];
  }

  /** The search: at most `MaxResults` matching rows of the library, and
      every matching row unless the cap was reached. Which rows fill the cap
      is the storage engine's choice; this model takes them in scan order. */
  function SearchLibrary(lib: Library, q: string): (r: Library)
    ensures |r| <= MaxResults && |r| <= |lib|
    ensures multiset(r) <= multiset(lib)
    ensures forall c :: c in r ==> c in lib && RowMatches(c, q)
    ensures |r| == MaxResults || forall c :: c in lib && RowMatches(c, q) ==> c in r
    ensures |r| == if |MatchingRows(lib, q)| < MaxResults then |MatchingRows(lib, q)| else MaxResults
  {
    var m := MatchingRows(lib, q);
    MatchingIsSubMultiset(lib, q);
    if |m| <= MaxResults then m
    else
      PrefixIsSubMultiset(m, MaxResults);
      m[..MaxResults]
  }

  /** For a query without wildcards, search is case-insensitive substring
      search on identifier or name. */
  lemma SearchIsSubstringSearch(lib: Library, q: string)
    requires WildcardFree(q)
    ensures forall c :: c in SearchLibrary(lib, q) ==>
              ContainsIgnoreCase(c.identifier, q) || ContainsIgnoreCase(c.name, q)
    ensures |SearchLibrary(lib, q)| == MaxResults ||
            forall c :: c in lib && (ContainsIgnoreCase(c.identifier, q) || ContainsIgnoreCase(c.name, q))
                        ==> c in SearchLibrary(lib, q)
  {
    forall c: ControlReference
      ensures RowMatches(c, q) <==> ContainsIgnoreCase(c.identifier, q) || ContainsIgnoreCase(c.name, q)
    {
      SurroundIsContains(c.identifier, q);
      SurroundIsContains(c.name, q);
    }
  }

  /** The empty query matches every row, so it returns as many rows as the
      cap allows. */
  lemma EmptySearchSize(lib: Library)
    ensures |SearchLibrary(lib, "")| == if |lib| < MaxResults then |lib| else MaxResults
  {
    forall i | 0 <= i < |lib| ensures RowMatches(lib[i], "") {
      EmptyQueryMatchesAll(lib[i].identifier);
    }
  }

  /** The answer of the exact lookup: the row, or the not-found marker. */
  datatype ControlLookup = Found(control: ControlReference) | NotFound

  function HasIdentifier(refId: string): ControlReference -> bool {
    (c: ControlReference) => c.identifier == refId
  }

  /** Exact lookup on the identifier: the first row whose identifier equals
      `refId`, never a row that merely contains it. */
  function GetControl(lib: Library, refId: string): (r: ControlLookup)
    ensures r.NotFound? <==> forall i :: 0 <= i < |lib| ==> lib[i].identifier != refId
    ensures r.Found? ==>
              && r.control.identifier == refId
              && exists i :: IsFirst(lib, HasIdentifier(refId), i) && lib[i] == r.control
  {
    match FirstIndex(lib, HasIdentifier(refId))
    case Some(i) => Found(lib[i])
    case None => NotFound
  }

  /** A control the exact lookup finds is also found by searching for its
      identifier, unless that search is already full. */
  lemma ExactHitIsSearchHit(lib: Library, refId: string)
    requires GetControl(lib, refId).Found?
    ensures var r := SearchLibrary(lib, refId);
            GetControl(lib, refId).control in r || |r| == MaxResults
  {
    var c := GetControl(lib, refId).control;
    SelfSearchMatches(refId);
    assert RowMatches(c, refId);
  }
}
