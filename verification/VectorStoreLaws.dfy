/** Laws of the vector store over whole runs: versions, dimensions, and batches that raise. */
module VectorStoreLaws {
  import opened Common
  import opened VectorStore

  // ------------------------------------------------- what every call keeps

  /** A history only grows at its end, and a version changes only by being superseded. */
  ghost predicate Grew(a: seq<VectorRecord>, b: seq<VectorRecord>) {
    && |a| <= |b|
    && forall i :: 0 <= i < |a| ==>
         || b[i] == a[i]
         || (!a[i].superseded && b[i].superseded && b[i] == Superseded(a[i], b[i].supersededBy))
  }

  /** What one call may do to the store: no established dimension changes, and no history is rewritten. */
  ghost predicate Evolves(a: State, b: State) {
    && (forall space :: space in a.dimensions ==> space in b.dimensions && b.dimensions[space] == a.dimensions[space])
    && (forall key :: key in a.versions && key in b.versions ==> Grew(a.versions[key], b.versions[key]))
  }

  lemma GrewTransitive(a: seq<VectorRecord>, b: seq<VectorRecord>, c: seq<VectorRecord>)
    requires Grew(a, b) && Grew(b, c)
    ensures Grew(a, c)
  {}

  lemma RetiredGrew(history: seq<VectorRecord>, replacement: Option<string>)
    ensures Grew(history, Retired(history, replacement))
    ensures OnlyLastActive(history) ==> forall r :: r in Retired(history, replacement) ==> r.superseded
    ensures forall i :: 0 <= i < |history| ==>
              KeyOf(Retired(history, replacement)[i]) == KeyOf(history[i])
                  && Retired(history, replacement)[i].vector == history[i].vector
  {}

  lemma DistinctSnoc(keys: seq<Key>, key: Key)
    requires Distinct(keys) && key !in keys
    ensures Distinct(keys + [key])
  {}

  lemma OldKeyHolds(s: State, key: Key)
    requires Sound(s) && key in s.versions
    ensures s.versions[key] != [] && OnlyLastActive(s.versions[key])
    ensures Space(key.tenant, key.collection) in s.dimensions
    ensures Filed(key, s.versions[key], s.dimensions[Space(key.tenant, key.collection)])
  {
    assert KeyHolds(s, key);
  }

  lemma NewVersionHolds(s: State, r: VectorRecord)
    requires Sound(s) && Fits(s, SpaceOf(r), r.embedding.dimension)
    ensures KeyHolds(Stored(s, r), KeyOf(r))
    ensures Grew(History(s, KeyOf(r)), Stored(s, r).versions[KeyOf(r)])
  {
    hide Sound, Grew, HasActive;
    var key := KeyOf(r);
    var history := History(s, key);
    var retired := Retired(history, Some(r.sourceHash));
    if key in s.versions { OldKeyHolds(s, key); }
    RetiredGrew(history, Some(r.sourceHash));
    LongerGrew(history, retired, Fresh(r));
    RetiredLength(history, Some(r.sourceHash));
    var now := retired + [Fresh(r)];
    assert OnlyLastActive(now) by {
      forall i | 0 <= i < |now| - 1
        ensures now[i].superseded
      {
        assert now[i] == retired[i] && retired[i] in retired;
      }
    }
  }

  lemma RetiredLength(history: seq<VectorRecord>, replacement: Option<string>)
    ensures |Retired(history, replacement)| == |history|
  {}

  lemma LongerGrew(a: seq<VectorRecord>, b: seq<VectorRecord>, r: VectorRecord)
    requires Grew(a, b)
    ensures Grew(a, b + [r])
  {}

  lemma StoredKeeps(s: State, r: VectorRecord)
    requires Sound(s) && Fits(s, SpaceOf(r), r.embedding.dimension)
    ensures Sound(Stored(s, r)) && Evolves(s, Stored(s, r))
  {
    hide Grew, Retired, OnlyLastActive, Filed, Distinct;
    var key := KeyOf(r);
    var s1 := Stored(s, r);
    NewVersionHolds(s, r);
    if key !in s.versions { DistinctSnoc(s.keys, key); }
    forall k | k in s1.versions
      ensures KeyHolds(s1, k)
    {
      if k != key { assert KeyHolds(s, k); }
    }
    forall k | k in s.versions
      ensures Grew(s.versions[k], s1.versions[k])
    {
      GrewItself(s.versions[k]);
    }
  }

  lemma GrewItself(a: seq<VectorRecord>)
    ensures Grew(a, a)
  {}

  lemma EvolvesItself(s: State)
    ensures Evolves(s, s)
  {}

  /** Through a middle state that lost no key of both ends. */
  lemma EvolvesTransitive(a: State, b: State, c: State)
    requires Evolves(a, b) && Evolves(b, c)
    requires forall key :: key in a.versions && key in c.versions ==> key in b.versions
    ensures Evolves(a, c)
  {
    hide Grew;
    forall key | key in a.versions && key in c.versions
      ensures Grew(a.versions[key], c.versions[key])
    {
      GrewTransitive(a.versions[key], b.versions[key], c.versions[key]);
    }
  }

  lemma {:induction false} UpsertKeeps(s: State, tenant: string, records: seq<VectorRecord>)
    requires Sound(s)
    ensures var s1 := UpsertAll(s, tenant, records).0;
            Sound(s1) && Evolves(s, s1) && s.versions.Keys <= s1.versions.Keys
    decreases |records|
  {
    hide Sound, Evolves, Retired, IsReplay;
    EvolvesItself(s);
    if records != [] && UpsertOne(s, tenant, records[0]).Ok? {
      var s1 := UpsertOne(s, tenant, records[0]).value.0;
      if !IsReplay(s, records[0]) { StoredKeeps(s, records[0]); }
      UpsertKeeps(s1, tenant, records[1..]);
      EvolvesTransitive(s, s1, UpsertAll(s1, tenant, records[1..]).0);
    }
  }

  lemma {:induction false} WithoutIs(keys: seq<Key>, key: Key)
    requires Distinct(keys)
    ensures Distinct(Without(keys, key))
    ensures forall k :: k in Without(keys, key) <==> k in keys && k != key
  {
    if keys != [] {
      var rest := keys[1..];
      assert forall k :: k in keys <==> k == keys[0] || k in rest;
      assert forall i :: 0 <= i < |rest| ==> rest[i] == keys[i + 1] && rest[i] != keys[0];
      WithoutIs(rest, key);
      assert keys[0] !in Without(rest, key);
    }
  }

  lemma {:induction false} DeleteKeeps(s: State, space: Space, ids: seq<string>)
    requires Sound(s)
    ensures var s1 := DeleteAll(s, space, ids).0;
            && Sound(s1) && Evolves(s, s1) && s1.dimensions == s.dimensions
            && (forall key :: key in s1.versions <==>
                                key in s.versions
                                && !(Space(key.tenant, key.collection) == space && key.id in ids))
    decreases |ids|
  {
    hide Grew, OnlyLastActive, Filed, Distinct, Evolves, Sound;
    if ids == [] {
      EvolvesItself(s);
    } else {
      var key := Key(space.tenant, space.collection, ids[0]);
      assert forall id :: id in ids <==> id == ids[0] || id in ids[1..];
      if key in s.versions {
        DroppedKeeps(s, key);
        DeleteKeeps(Dropped(s, key), space, ids[1..]);
        EvolvesTransitive(s, Dropped(s, key), DeleteAll(Dropped(s, key), space, ids[1..]).0);
      } else {
        DeleteKeeps(s, space, ids[1..]);
      }
    }
  }

  lemma DroppedKeeps(s: State, key: Key)
    requires Sound(s) && key in s.versions
    ensures Sound(Dropped(s, key)) && Evolves(s, Dropped(s, key))
  {
    hide Grew, OnlyLastActive, Filed, Distinct;
    var s1 := Dropped(s, key);
    WithoutIs(s.keys, key);
    forall k | k in s1.versions
      ensures KeyHolds(s1, k) && Grew(s.versions[k], s1.versions[k])
    {
      assert KeyHolds(s, k);
      GrewItself(s.versions[k]);
    }
  }

  lemma RetiredHolds(s: State, key: Key, replacement: Option<string>)
    requires Sound(s) && key in s.versions
    ensures var s1 := s.(versions := s.versions[key := Retired(s.versions[key], replacement)]);
            Sound(s1) && Evolves(s, s1)
  {
    hide Grew, Distinct, HasActive;
    var history := s.versions[key];
    var s1 := s.(versions := s.versions[key := Retired(history, replacement)]);
    RetiredGrew(history, replacement);
    RetiredLength(history, replacement);
    assert KeyHolds(s, key);
    forall k | k in s1.versions
      ensures KeyHolds(s1, k) && Grew(s.versions[k], s1.versions[k])
    {
      GrewItself(s.versions[k]);
      assert KeyHolds(s, k);
    }
  }

  lemma {:induction false} InvalidateKeeps(s: State, keys: seq<Key>, space: Space, hash: string,
                                           replacement: Option<string>)
    requires Sound(s)
    ensures var s1 := InvalidateAll(s, keys, space, hash, replacement).0;
            Sound(s1) && Evolves(s, s1) && s1.dimensions == s.dimensions && s1.versions.Keys == s.versions.Keys
    decreases |keys|
  {
    hide Sound, Evolves, Retired;
    EvolvesItself(s);
    if keys != [] {
      if IsStale(s, space, hash, keys[0]) {
        var s1 := s.(versions := s.versions[keys[0] := Retired(s.versions[keys[0]], replacement)]);
        RetiredHolds(s, keys[0], replacement);
        InvalidateKeeps(s1, keys[1..], space, hash, replacement);
        EvolvesTransitive(s, s1, InvalidateAll(s1, keys[1..], space, hash, replacement).0);
      } else {
        InvalidateKeeps(s, keys[1..], space, hash, replacement);
      }
    }
  }

  predicate Deletes(call: Call, key: Key) {
    call.Delete? && call.tenant == key.tenant && call.collection == key.collection && key.id in call.ids
  }

  /** Every call keeps the store sound, rewrites no history, and loses only the keys a delete names. */
  lemma StepKeeps(s: State, call: Call)
    requires Sound(s)
    ensures Sound(Step(s, call).0) && Evolves(s, Step(s, call).0)
    ensures forall key :: key in s.versions && !Deletes(call, key) ==> key in Step(s, call).0.versions
  {
    hide Sound, Evolves;
    EvolvesItself(s);
    if call.tenant != "" {
      match call
      case Upsert(tenant, records) => UpsertKeeps(s, tenant, records);
      case Delete(tenant, collection, ids) => DeleteKeeps(s, Space(tenant, collection), ids);
      case Invalidate(tenant, collection, hash, replacement) =>
        InvalidateKeeps(s, s.keys, Space(tenant, collection), hash, replacement);
      case _ =>
    }
  }

  lemma {:induction false} RunKeepsSound(s: State, calls: seq<Call>)
    requires Sound(s)
    ensures Sound(Run(s, calls).0)
    decreases |calls|
  {
    hide Sound, Step;
    if calls != [] {
      StepKeeps(s, calls[0]);
      RunKeepsSound(Step(s, calls[0]).0, calls[1..]);
    }
  }

  /** Every reachable store is sound. */
  lemma ReachableIsSound(calls: seq<Call>)
    ensures Sound(Run(EMPTY, calls).0)
  {
    RunKeepsSound(EMPTY, calls);
  }

  /** Over any run, deletes included, an established dimension stays as it was. */
  lemma {:induction false} DimensionsLast(s: State, calls: seq<Call>, space: Space)
    requires Sound(s) && space in s.dimensions
    ensures space in Run(s, calls).0.dimensions && Run(s, calls).0.dimensions[space] == s.dimensions[space]
    decreases |calls|
  {
    hide Sound, Step;
    if calls != [] {
      StepKeeps(s, calls[0]);
      DimensionsLast(Step(s, calls[0]).0, calls[1..], space);
    }
  }

  /** Over any run that does not delete a key, its history only grows, and a superseded version stays as it is. */
  lemma {:induction false} HistoryOnlyGrows(s: State, calls: seq<Call>, key: Key)
    requires Sound(s) && key in s.versions
    requires forall call :: call in calls ==> !Deletes(call, key)
    ensures key in Run(s, calls).0.versions && Grew(s.versions[key], Run(s, calls).0.versions[key])
    decreases |calls|
  {
    hide Sound, Step, Grew, Deletes;
    GrewItself(s.versions[key]);
    if calls != [] {
      StepKeeps(s, calls[0]);
      var s1 := Step(s, calls[0]).0;
      HistoryOnlyGrows(s1, calls[1..], key);
      GrewTransitive(s.versions[key], s1.versions[key], Run(s1, calls[1..]).0.versions[key]);
    }
  }

  // ------------------------------------------------------------ batch upserts

  /** A batch that raises leaves exactly the state its accepted prefix leaves, and the error is that of the next
      record. */
  lemma {:induction false} RaisingBatchIsItsPrefix(s: State, tenant: string, records: seq<VectorRecord>)
      returns (j: nat)
    requires UpsertAll(s, tenant, records).1.Err?
    ensures j < |records|
    ensures UpsertAll(s, tenant, records[..j]).1.Ok?
    ensures UpsertAll(s, tenant, records).0 == UpsertAll(s, tenant, records[..j]).0
    ensures UpsertOne(UpsertAll(s, tenant, records[..j]).0, tenant, records[j])
            == Err(UpsertAll(s, tenant, records).1.error)
    decreases |records|
  {
    hide UpsertOne;
    if UpsertOne(s, tenant, records[0]).Err? {
      j := 0;
    } else {
      var s1 := UpsertOne(s, tenant, records[0]).value.0;
      var i := RaisingBatchIsItsPrefix(s1, tenant, records[1..]);
      j := i + 1;
      assert records[..j][1..] == records[1..][..i];
    }
  }

  /** Sending an accepted record again changes nothing and returns what is stored. */
  lemma ReplayIsANoOp(s: State, tenant: string, r: VectorRecord)
    requires UpsertOne(s, tenant, r).Ok?
    ensures var (s1, stored) := UpsertOne(s, tenant, r).value;
            UpsertOne(s1, tenant, r) == Ok((s1, stored))
  {
    hide WellFormed;
    if !IsReplay(s, r) {
      var s1 := Stored(s, r);
      var history := History(s1, KeyOf(r));
      assert Last(history) == Fresh(r);
    }
  }
}
