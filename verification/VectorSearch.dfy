/** What a vector search returns: the nearest active records of the tenant's own collection. */
module VectorSearch {
  import opened Common
  import opened VectorStore

  // ------------------------------------------------------------- candidates

  /** The active version of some key of this collection. */
  ghost predicate IsActive(s: State, space: Space, r: VectorRecord) {
    && SpaceOf(r) == space
    && KeyOf(r) in s.versions
    && HasActive(s.versions[KeyOf(r)])
    && Last(s.versions[KeyOf(r)]) == r
  }

  lemma CandidateIsActive(s: State, space: Space, key: Key)
    requires Sound(s) && IsCandidate(s, space, key)
    ensures var r := Last(History(s, key));
            KeyOf(r) == key && IsActive(s, space, r) && space in s.dimensions && |r.vector| == s.dimensions[space]
  {
    assert KeyHolds(s, key);
  }

  /** The candidates are the active records whose keys are listed, in the order of the keys. */
  lemma {:induction false} CandidatesAreActive(s: State, keys: seq<Key>, space: Space)
    requires Sound(s)
    ensures forall r :: r in Candidates(s, keys, space) ==> space in s.dimensions && |r.vector| == s.dimensions[space]
    ensures forall r :: r in Candidates(s, keys, space) <==> IsActive(s, space, r) && KeyOf(r) in keys
    decreases |keys|
  {
    hide Sound, IsActive, WellFormed;
    if keys != [] {
      CandidatesAreActive(s, keys[1..], space);
      assert forall k :: k in keys <==> k == keys[0] || k in keys[1..];
      if IsCandidate(s, space, keys[0]) { CandidateIsActive(s, space, keys[0]); }
      forall r | r in Candidates(s, keys, space)
        ensures IsActive(s, space, r) && KeyOf(r) in keys
      {
        assert r in Candidates(s, keys[1..], space) || (IsCandidate(s, space, keys[0])
                                                        && r == Last(History(s, keys[0])));
      }
      forall r | IsActive(s, space, r) && KeyOf(r) == keys[0]
        ensures r in Candidates(s, keys, space)
      {
        ActiveIsCandidate(s, space, r);
      }
    }
  }

  lemma ActiveIsFiled(s: State, space: Space, r: VectorRecord)
    requires Sound(s) && IsActive(s, space, r)
    ensures KeyOf(r) in s.keys
  {}

  lemma ActiveIsCandidate(s: State, space: Space, r: VectorRecord)
    requires IsActive(s, space, r)
    ensures IsCandidate(s, space, KeyOf(r)) && r == Last(History(s, KeyOf(r)))
  {}

  ghost predicate KeysDiffer(records: seq<VectorRecord>) {
    forall i, j :: 0 <= i < j < |records| ==> KeyOf(records[i]) != KeyOf(records[j])
  }

  lemma DiffersInFront(r: VectorRecord, records: seq<VectorRecord>, keys: seq<Key>)
    requires KeysDiffer(records) && KeyOf(r) !in keys
    requires forall x :: x in records ==> KeyOf(x) in keys
    ensures KeysDiffer([r] + records)
  {
    hide WellFormed, KeyOf;
    forall j | 0 <= j < |records|
      ensures KeyOf(records[j]) in keys
    {
      assert records[j] in records;
    }
  }

  /** No key is a candidate twice. */
  lemma {:induction false} CandidatesAreDistinct(s: State, keys: seq<Key>, space: Space)
    requires Sound(s) && Distinct(keys)
    ensures KeysDiffer(Candidates(s, keys, space))
    decreases |keys|
  {
    hide Sound, IsActive, WellFormed, KeyOf;
    if keys != [] {
      hide KeysDiffer;
      var rest := keys[1..];
      assert forall i :: 0 <= i < |rest| ==> rest[i] == keys[i + 1] && rest[i] != keys[0];
      CandidatesAreDistinct(s, rest, space);
      CandidatesAreActive(s, rest, space);
      var c := Candidates(s, rest, space);
      if IsCandidate(s, space, keys[0]) {
        CandidateIsActive(s, space, keys[0]);
        DiffersInFront(Last(History(s, keys[0])), c, rest);
      } else {
        assert Candidates(s, keys, space) == c;
      }
    }
  }

  // ---------------------------------------------------------------- scoring

  lemma {:induction false} AllScored(query: seq<real>, records: seq<VectorRecord>)
    requires forall r :: r in records ==> |r.vector| == |query|
    ensures Scored(query, records).Some?
    ensures |Scored(query, records).value| == |records|
    ensures forall i :: 0 <= i < |records| ==>
              Scored(query, records).value[i] == Hit(records[i], SquaredDistance(query, records[i].vector))
  {
    hide WellFormed, SquaredDistance;
    if records != [] { AllScored(query, records[1..]); }
  }

  // ---------------------------------------------------------------- sorting

  ghost predicate Ascending(hits: seq<Hit>) {
    forall i, j :: 0 <= i < j < |hits| ==> hits[i].distance <= hits[j].distance
  }

  /** The hits at one distance, in order. */
  function At(hits: seq<Hit>, d: real): seq<Hit> {
    if hits == [] then [] else (if hits[0].distance == d then [hits[0]] else []) + At(hits[1..], d)
  }

  lemma {:induction false} InsertAdds(h: Hit, sorted: seq<Hit>)
    ensures multiset(Insert(h, sorted)) == multiset(sorted) + multiset{h}
    ensures |Insert(h, sorted)| == |sorted| + 1
    ensures forall x :: x in Insert(h, sorted) ==> x == h || x in sorted
  {
    hide WellFormed;
    if sorted == [] || h.distance <= sorted[0].distance {
      assert Insert(h, sorted) == [h] + sorted;
    } else {
      InsertAdds(h, sorted[1..]);
      assert sorted == [sorted[0]] + sorted[1..];
    }
  }

  lemma {:induction false} InsertSorts(h: Hit, sorted: seq<Hit>)
    requires Ascending(sorted)
    ensures Ascending(Insert(h, sorted))
  {
    hide WellFormed;
    if sorted != [] && h.distance > sorted[0].distance {
      var rest := sorted[1..];
      InsertSorts(h, rest);
      InsertAdds(h, rest);
      assert sorted == [sorted[0]] + rest;
      FrontOfAscending(sorted[0], rest, Insert(h, rest), h);
    }
  }

  lemma AtFront(h: Hit, hits: seq<Hit>, d: real)
    ensures At([h] + hits, d) == (if h.distance == d then [h] + At(hits, d) else At(hits, d))
  {
    hide WellFormed;
    assert ([h] + hits)[1..] == hits;
  }

  /** Inserted before every hit at its own distance. */
  lemma {:induction false} InsertKeepsTies(h: Hit, sorted: seq<Hit>, d: real)
    ensures At(Insert(h, sorted), d) == At([h] + sorted, d)
  {
    hide WellFormed, At;
    if sorted != [] && h.distance > sorted[0].distance {
      var rest := sorted[1..];
      assert sorted == [sorted[0]] + rest;
      InsertKeepsTies(h, rest, d);
      AtFront(sorted[0], Insert(h, rest), d);
      AtFront(sorted[0], rest, d);
      AtFront(h, rest, d);
      AtFront(h, sorted, d);
    }
  }

  lemma FrontOfAscending(first: Hit, rest: seq<Hit>, r: seq<Hit>, h: Hit)
    requires Ascending([first] + rest) && Ascending(r) && first.distance <= h.distance
    requires forall x :: x in r ==> x == h || x in rest
    ensures Ascending([first] + r)
  {
    hide WellFormed;
    forall j | 0 <= j < |r|
      ensures first.distance <= r[j].distance
    {
      assert r[j] in r;
      if r[j] in rest {
        var i :| 0 <= i < |rest| && rest[i] == r[j];
        assert ([first] + rest)[0].distance <= ([first] + rest)[i + 1].distance;
      }
    }
  }

  lemma NoHits(d: real)
    ensures Ascending([]) && At([], d) == []
  {}

  /** The sort loses nothing, orders by distance, and keeps the order of hits at the same distance. */
  lemma {:induction false} SortIsStable(hits: seq<Hit>, d: real)
    ensures Ascending(ByDistance(hits))
    ensures multiset(ByDistance(hits)) == multiset(hits)
    ensures At(ByDistance(hits), d) == At(hits, d)
    ensures |ByDistance(hits)| == |hits|
  {
    hide WellFormed, Insert, At, Ascending;
    if hits == [] {
      NoHits(d);
    } else {
      var first, rest := hits[0], hits[1..];
      SortIsStable(rest, d);
      InsertAdds(first, ByDistance(rest));
      InsertSorts(first, ByDistance(rest));
      InsertKeepsTies(first, ByDistance(rest), d);
      AtFront(first, ByDistance(rest), d);
      AtFront(first, rest, d);
      assert hits == [first] + rest;
    }
  }

  // ------------------------------------------------------------ the search

  /** A search of a sound store fails only for an empty tenant, a count below one, or a query of another dimension. */
  lemma SearchFailsOnlyOnItsArguments(s: State, tenant: string, collection: string, query: seq<real>, k: int)
    requires Sound(s)
    ensures var r := Search(s, tenant, collection, query, k);
            && (r == Err(ValueError) <==> tenant == "" || k <= 0)
            && (r == Err(DimensionMismatch) <==> tenant != "" && k > 0 && !Fits(s, Space(tenant, collection), |query|))
            && (r.Ok? || r == Err(ValueError) || r == Err(DimensionMismatch))
  {
    hide Sound, WellFormed, Scored, Candidates, ByDistance;
    var space := Space(tenant, collection);
    CandidatesAreActive(s, s.keys, space);
    if Fits(s, space, |query|) { AllScored(query, Candidates(s, s.keys, space)); }
  }

  /** The hits returned are the `k` nearest of the active records, nearest first, and everything left out is no
      nearer. */
  lemma SearchIsNearest(s: State, tenant: string, collection: string, query: seq<real>, k: int)
      returns (all: seq<Hit>, rest: seq<Hit>)
    requires Sound(s) && Search(s, tenant, collection, query, k).Ok?
    ensures var active := Candidates(s, s.keys, Space(tenant, collection));
            && |all| == |active|
            && (forall i :: 0 <= i < |all| ==>
                              |active[i].vector| == |query|
                              && all[i] == Hit(active[i], SquaredDistance(query, active[i].vector)))
    ensures var hits := Search(s, tenant, collection, query, k).value;
            && |hits| == (if k < |all| then k else |all|)
            && Ascending(hits)
            && multiset(hits) + multiset(rest) == multiset(all)
            && (forall h, g :: h in hits && g in rest ==> h.distance <= g.distance)
            && (forall d :: At(hits + rest, d) == At(all, d))
  {
    hide Sound, WellFormed, Scored, Candidates, ByDistance, SquaredDistance, At;
    var space := Space(tenant, collection);
    var active := Candidates(s, s.keys, space);
    CandidatesAreActive(s, s.keys, space);
    assert forall r :: r in active ==> |r.vector| == |query|;
    AllScored(query, active);
    all := Scored(query, active).value;
    var sorted := ByDistance(all);
    SortIsStable(all, 0.0);
    forall d ensures At(sorted, d) == At(all, d) { SortIsStable(all, d); }
    var n := if k < |all| then k else |all|;
    rest := sorted[n..];
    assert sorted == sorted[..n] + rest;
  }

  /** The records searched are all and only the active ones of the tenant's own collection, each once. */
  lemma SearchedRecordsAreOwnActive(s: State, tenant: string, collection: string)
    requires Sound(s)
    ensures KeysDiffer(Candidates(s, s.keys, Space(tenant, collection)))
    ensures forall r :: r in Candidates(s, s.keys, Space(tenant, collection)) <==>
              IsActive(s, Space(tenant, collection), r)
  {
    hide Candidates, WellFormed, IsActive;
    CandidatesAreActive(s, s.keys, Space(tenant, collection));
    CandidatesAreDistinct(s, s.keys, Space(tenant, collection));
    forall r | IsActive(s, Space(tenant, collection), r)
      ensures KeyOf(r) in s.keys
    {
      ActiveIsFiled(s, Space(tenant, collection), r);
    }
  }
}
