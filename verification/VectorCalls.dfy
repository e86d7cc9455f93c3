/** What each call of the vector store does, told from the records, histories and answers a caller sees. */
module VectorCalls {
  import opened Common
  import opened VectorStore
  import opened VectorStoreLaws
  import opened VectorSearch

  // ------------------------------------------------------------ one upsert

  /** The versions stored under a record's key. */
  function Before(s: State, r: VectorRecord): seq<VectorRecord> {
    var key := Key(r.tenantId, r.collection, r.recordId);
    if key in s.versions then s.versions[key] else []
  }

  predicate IsActiveHistory(history: seq<VectorRecord>) {
    history != [] && history[|history| - 1].superseded == false
  }

  /** Sent again: the active version has the same source hash. */
  predicate SameSource(s: State, r: VectorRecord) {
    IsActiveHistory(Before(s, r)) && Before(s, r)[|Before(s, r)| - 1].sourceHash == r.sourceHash
  }

  predicate DimensionAgrees(s: State, r: VectorRecord) {
    var space := Space(r.tenantId, r.collection);
    space in s.dimensions ==> s.dimensions[space] == r.embedding.dimension
  }

  /** Version `i` of a history after a record has been stored behind it: the active version is superseded by the
      record's source hash, every other is as it was. */
  ghost predicate KeptVersion(before: seq<VectorRecord>, after: seq<VectorRecord>, i: nat, hash: string)
    requires i < |before| && i < |after|
  {
    if i == |before| - 1 && !before[i].superseded
    then after[i] == before[i].(superseded := true, supersededBy := Some(hash))
    else after[i] == before[i]
  }

  /** A record lands: it is the new active version, with its own content, behind the history there was. */
  ghost predicate Lands(s: State, s1: State, r: VectorRecord, stored: VectorRecord) {
    var key, space := Key(r.tenantId, r.collection, r.recordId), Space(r.tenantId, r.collection);
    && stored == r.(superseded := false, supersededBy := None)
    && s1.versions.Keys == s.versions.Keys + {key}
    && |s1.versions[key]| == |Before(s, r)| + 1
    && s1.versions[key][|Before(s, r)|] == stored
    && (forall i: nat :: i < |Before(s, r)| ==> KeptVersion(Before(s, r), s1.versions[key], i, r.sourceHash))
    && s1.keys == (if key in s.versions then s.keys else s.keys + [key])
    && (forall k :: k in s.versions && k != key ==> s1.versions[k] == s.versions[k])
    && s1.dimensions == s.dimensions[space := r.embedding.dimension]
  }

  /** One record sent alone: refused without a change for a foreign tenant or another dimension, answered with the
      active version if that has the same source hash, and else stored. */
  lemma OneRecordSent(s: State, tenant: string, r: VectorRecord)
    requires tenant != ""
    ensures var (s1, answer) := Step(s, Upsert(tenant, [r]));
            && (answer == Raised(TenantIsolation) <==> r.tenantId != tenant)
            && (answer == Raised(DimensionMismatch) <==> r.tenantId == tenant && !DimensionAgrees(s, r))
            && (answer.Raised? <==> r.tenantId != tenant || !DimensionAgrees(s, r))
            && (answer.Raised? ==> s1 == s)
            && (!answer.Raised? ==> answer.Records? && |answer.records| == 1)
            && (!answer.Raised? && SameSource(s, r) ==>
                  s1 == s && answer.records[0] == Before(s, r)[|Before(s, r)| - 1])
            && (!answer.Raised? && !SameSource(s, r) ==> Lands(s, s1, r, answer.records[0]))
  {
    hide WellFormed;
    assert [r][1..] == [];
    if UpsertOne(s, tenant, r).Ok? {
      var (s1, stored) := UpsertOne(s, tenant, r).value;
      assert UpsertAll(s1, tenant, []) == (s1, Ok([]));
      assert [stored] + [] == [stored];
      if !SameSource(s, r) {
        assert s1.versions.Keys == s.versions.Keys + {KeyOf(r)};
      }
    }
  }

  /** What was answered is what is then read: as the version, the end of the history, and active. */
  lemma SentIsRead(s: State, tenant: string, r: VectorRecord)
    requires tenant != "" && Step(s, Upsert(tenant, [r])).1.Records?
    ensures var (s1, answer) := Step(s, Upsert(tenant, [r]));
            && |answer.records| == 1
            && Step(s1, Get(tenant, r.collection, r.recordId)) == (s1, Records(answer.records))
            && answer.records[0].sourceHash == r.sourceHash && !answer.records[0].superseded
            && (exists versions :: versions != [] && versions[|versions| - 1] == answer.records[0]
                  && Step(s1, ListVersions(tenant, r.collection, r.recordId)) == (s1, Records(versions)))
  {
    hide WellFormed;
    OneRecordSent(s, tenant, r);
    var (s1, answer) := Step(s, Upsert(tenant, [r]));
    hide UpsertAll, UpsertOne;
    var key := Key(r.tenantId, r.collection, r.recordId);
    var versions := s1.versions[key];
    assert versions != [] && versions[|versions| - 1] == answer.records[0];
    assert Step(s1, ListVersions(tenant, r.collection, r.recordId)) == (s1, Records(versions));
    assert answer.records == [answer.records[0]];
  }

  /** Reading an unknown key is not found, and its history is empty; an empty tenant is refused. */
  lemma UnknownIsNotFound(s: State, tenant: string, collection: string, id: string)
    ensures tenant != "" && Key(tenant, collection, id) !in s.versions ==>
              && Step(s, Get(tenant, collection, id)) == (s, Raised(NotFound))
              && Step(s, ListVersions(tenant, collection, id)) == (s, Records([]))
    ensures forall call: Call :: call.tenant == "" ==> Step(s, call) == (s, Raised(ValueError))
  {}

  // ---------------------------------------------------------------- a batch

  /** A batch is its first part and then its rest. */
  lemma {:induction false} BatchInTwo(s: State, tenant: string, a: seq<VectorRecord>, b: seq<VectorRecord>)
    requires UpsertAll(s, tenant, a).1.Ok?
    ensures var (s1, r1) := UpsertAll(s, tenant, a);
            var (s2, r2) := UpsertAll(s1, tenant, b);
            && UpsertAll(s, tenant, a + b).0 == s2
            && (r2.Err? ==> UpsertAll(s, tenant, a + b).1 == r2)
            && (r2.Ok? ==> UpsertAll(s, tenant, a + b).1 == Ok(r1.value + r2.value))
    decreases |a|
  {
    hide UpsertOne, WellFormed;
    if a == [] {
      assert a + b == b;
      var all := UpsertAll(s, tenant, b).1;
      if all.Ok? { assert [] + all.value == all.value; }
    } else {
      assert (a + b)[1..] == a[1..] + b;
      var (s1, stored) := UpsertOne(s, tenant, a[0]).value;
      BatchInTwo(s1, tenant, a[1..], b);
      var rest, more := UpsertAll(s1, tenant, a[1..]), UpsertAll(UpsertAll(s1, tenant, a[1..]).0, tenant, b).1;
      if more.Ok? { assert [stored] + (rest.1.value + more.value) == ([stored] + rest.1.value) + more.value; }
    }
  }

  lemma {:induction false} AcceptedParts(s: State, tenant: string, a: seq<VectorRecord>, b: seq<VectorRecord>)
    requires UpsertAll(s, tenant, a + b).1.Ok?
    ensures UpsertAll(s, tenant, a).1.Ok?
    decreases |a|
  {
    hide UpsertOne, WellFormed;
    if a != [] {
      assert (a + b)[1..] == a[1..] + b;
      AcceptedParts(UpsertOne(s, tenant, a[0]).value.0, tenant, a[1..], b);
    }
  }

  /** A batch of several records is the calls that send them one by one, as long as none is refused. */
  lemma BatchIsOneByOne(s: State, tenant: string, a: seq<VectorRecord>, r: VectorRecord)
    requires tenant != "" && Step(s, Upsert(tenant, a + [r])).1.Records?
    ensures var (s1, first) := Step(s, Upsert(tenant, a));
            var (s2, last) := Step(s1, Upsert(tenant, [r]));
            && first.Records? && last.Records?
            && Step(s, Upsert(tenant, a + [r])) == (s2, Records(first.records + last.records))
  {
    hide WellFormed, UpsertAll, Step;
    UpsertStep(s, tenant, a + [r]);
    AcceptedParts(s, tenant, a, [r]);
    BatchInTwo(s, tenant, a, [r]);
    UpsertStep(s, tenant, a);
    var (s1, r1) := UpsertAll(s, tenant, a);
    UpsertStep(s1, tenant, [r]);
    assert Step(s, Upsert(tenant, a)) == (s1, Records(r1.value));
    var (s2, r2) := UpsertAll(s1, tenant, [r]);
    assert r2.Ok?;
    assert Step(s1, Upsert(tenant, [r])) == (s2, Records(r2.value));
    assert Step(s, Upsert(tenant, a + [r])) == (s2, Records(r1.value + r2.value));
  }

  lemma UpsertStep(s: State, tenant: string, records: seq<VectorRecord>)
    requires tenant != ""
    ensures var (s1, r) := UpsertAll(s, tenant, records);
            Step(s, Upsert(tenant, records)) == (s1, if r.Ok? then Records(r.value) else Raised(r.error))
  {
    hide WellFormed, UpsertAll;
  }

  /** After an accepted batch, reading the key of its last record gives what the batch answered for it, and a search of
      its collection sees it. */
  lemma LastOfBatchIsFound(s: State, tenant: string, a: seq<VectorRecord>, r: VectorRecord)
    requires Sound(s) && tenant != "" && Step(s, Upsert(tenant, a + [r])).1.Records?
    ensures var (s2, answer) := Step(s, Upsert(tenant, a + [r]));
            && answer.records != []
            && Step(s2, Get(tenant, r.collection, r.recordId)).1 == Records([answer.records[|answer.records| - 1]])
            && answer.records[|answer.records| - 1].sourceHash == r.sourceHash
            && IsActive(s2, Space(tenant, r.collection), answer.records[|answer.records| - 1])
            && answer.records[|answer.records| - 1] in Candidates(s2, s2.keys, Space(tenant, r.collection))
  {
    hide WellFormed, UpsertAll, Sound;
    BatchIsOneByOne(s, tenant, a, r);
    StepKeeps(s, Upsert(tenant, a + [r]));
    var s1 := Step(s, Upsert(tenant, a)).0;
    var (s2, last) := Step(s1, Upsert(tenant, [r]));
    SentIsRead(s1, tenant, r);
    OneRecordSent(s1, tenant, r);
    var x := last.records[0];
    assert last.records == [x];
    GotIsActive(s2, tenant, r, x);
    SearchedRecordsAreOwnActive(s2, tenant, r.collection);
    hide IsActive, Step;
  }

  lemma GotIsActive(s: State, tenant: string, r: VectorRecord, x: VectorRecord)
    requires Sound(s) && tenant != "" && r.tenantId == tenant && !x.superseded
    requires Step(s, Get(tenant, r.collection, r.recordId)).1 == Records([x])
    ensures IsActive(s, Space(tenant, r.collection), x)
  {
    var key := Key(tenant, r.collection, r.recordId);
    hide WellFormed, Sound;
    GotIsLast(s, key, x);
    OldKeyHolds(s, key);
  }

  lemma GotIsLast(s: State, key: Key, x: VectorRecord)
    requires key.tenant != "" && Step(s, Get(key.tenant, key.collection, key.id)).1 == Records([x])
    ensures key in s.versions && s.versions[key] != [] && x == Last(s.versions[key])
  {
    hide WellFormed;
    assert [x][0] == [Last(History(s, key))][0];
  }

  /** A run is its calls one after the other: each is made on the state the ones before it left, and answered from it.
      */
  lemma {:induction false} RunOneMore(s: State, calls: seq<Call>, call: Call)
    ensures var (s1, answers) := Run(s, calls);
            var (s2, answer) := Step(s1, call);
            Run(s, calls + [call]) == (s2, answers + [answer]) && Run(s, []) == (s, [])
    decreases |calls|
  {
    hide Step;
    if calls == [] {
      assert [] + [call] == [call] && [call][1..] == [];
      var (s2, answer) := Step(s, call);
      assert Run(s2, []) == (s2, []);
      assert [answer] + [] == [answer] == [] + [answer];
      assert Run(s, [call]) == (s2, [answer]);
    } else {
      assert (calls + [call])[1..] == calls[1..] + [call];
      assert (calls + [call])[0] == calls[0];
      var s1 := Step(s, calls[0]).0;
      RunOneMore(s1, calls[1..], call);
      var answers := Run(s1, calls[1..]).1;
      var last := Step(Run(s1, calls[1..]).0, call).1;
      assert [Step(s, calls[0]).1] + (answers + [last]) == ([Step(s, calls[0]).1] + answers) + [last];
    }
  }

  // ----------------------------------------------------- order of the keys

  /** `part` is what is left of `all` when some entries are struck out. */
  predicate Sublist<T(==)>(part: seq<T>, all: seq<T>) {
    part == [] || (all != [] && (if part[0] == all[0] then Sublist(part[1..], all[1..]) else Sublist(part, all[1..])))
  }

  lemma {:induction false} SublistOfMore<T>(part: seq<T>, x: T, all: seq<T>)
    requires Sublist(part, all)
    ensures Sublist([x] + part, [x] + all)
  {
    assert ([x] + part)[1..] == part && ([x] + all)[1..] == all;
  }

  lemma {:induction false} TailIsSublist<T>(part: seq<T>, all: seq<T>)
    requires part != [] && Sublist(part, all)
    ensures all != [] && Sublist(part[1..], all[1..])
    decreases |all|
  {
    if part[0] != all[0] {
      TailIsSublist(part, all[1..]);
      SublistOfLonger(part[1..], all[1..][1..], all[1..]);
    }
  }

  /** What is left of a tail is left of the whole. */
  lemma {:induction false} SublistOfLonger<T>(part: seq<T>, tail: seq<T>, all: seq<T>)
    requires Sublist(part, tail) && all != [] && tail == all[1..]
    ensures Sublist(part, all)
    decreases |all|
  {
    if part != [] && part[0] == all[0] {
      TailIsSublist(part, tail);
      SublistOfLonger(part[1..], tail[1..], tail);
    }
  }

  lemma {:induction false} SublistTransitive<T>(a: seq<T>, b: seq<T>, c: seq<T>)
    requires Sublist(a, b) && Sublist(b, c)
    ensures Sublist(a, c)
    decreases |c|
  {
    if a != [] {
      if b[0] == c[0] {
        if a[0] == b[0] { SublistTransitive(a[1..], b[1..], c[1..]); } else { SublistTransitive(a, b[1..], c[1..]); }
        if a[0] != b[0] { SublistOfLonger(a, c[1..], c); }
      } else {
        SublistTransitive(a, b, c[1..]);
        SublistOfLonger(a, c[1..], c);
      }
    }
  }

  lemma {:induction false} SublistOfItself<T>(all: seq<T>)
    ensures Sublist(all, all)
  {
    if all != [] { SublistOfItself(all[1..]); }
  }

  // ----------------------------------------------------------------- delete

  predicate Named(space: Space, ids: seq<string>, key: Key) {
    key.tenant == space.tenant && key.collection == space.collection && key.id in ids
  }

  lemma {:induction false} WithoutIsSublist(keys: seq<Key>, key: Key)
    ensures Sublist(Without(keys, key), keys)
  {
    if keys != [] {
      WithoutIsSublist(keys[1..], key);
      if keys[0] == key {
        assert Without(keys, key) == Without(keys[1..], key);
        SublistOfLonger(Without(keys, key), keys[1..], keys);
      } else {
        SublistOfMore(Without(keys[1..], key), keys[0], keys[1..]);
        assert keys == [keys[0]] + keys[1..];
      }
    }
  }

  /** A delete takes away the named keys with all their versions, counts them, and leaves every other history, the order
      of the keys left, and the dimensions as they were. */
  lemma {:induction false} DeleteIs(s: State, space: Space, ids: seq<string>)
    ensures var (s1, n) := DeleteAll(s, space, ids);
            && (forall key :: key in s1.versions <==> key in s.versions && !Named(space, ids, key))
            && (forall key :: key in s1.versions ==> s1.versions[key] == s.versions[key])
            && n == |s.versions.Keys| - |s1.versions.Keys|
            && Sublist(s1.keys, s.keys) && s1.dimensions == s.dimensions
    decreases |ids|
  {
    hide WellFormed;
    if ids == [] {
      SublistOfItself(s.keys);
    } else {
      var key := Key(space.tenant, space.collection, ids[0]);
      assert forall id :: id in ids <==> id == ids[0] || id in ids[1..];
      if key in s.versions {
        var s1 := Dropped(s, key);
        WithoutIsSublist(s.keys, key);
        DeleteIs(s1, space, ids[1..]);
        assert s1.versions.Keys == s.versions.Keys - {key};
        SublistTransitive(DeleteAll(s1, space, ids[1..]).0.keys, s1.keys, s.keys);
        hide Sublist, Without, DeleteAll;
      } else {
        DeleteIs(s, space, ids[1..]);
      }
    }
  }

  /** The same, of a call. */
  lemma DeleteCallIs(s: State, tenant: string, collection: string, ids: seq<string>)
    requires tenant != ""
    ensures var (s1, answer) := Step(s, Delete(tenant, collection, ids));
            && (forall key :: key in s1.versions <==>
                                key in s.versions && !Named(Space(tenant, collection), ids, key))
            && (forall key :: key in s1.versions ==> s1.versions[key] == s.versions[key])
            && answer.Count? && answer.n + |s1.versions.Keys| == |s.versions.Keys|
            && Sublist(s1.keys, s.keys) && s1.dimensions == s.dimensions
  {
    hide DeleteAll, Sublist;
    DeleteIs(s, Space(tenant, collection), ids);
  }

  // ------------------------------------------------------------- invalidate

  /** The key's active version was made from that source. */
  predicate MadeFrom(s: State, space: Space, hash: string, key: Key) {
    && key.tenant == space.tenant && key.collection == space.collection && key in s.versions
    && IsActiveHistory(s.versions[key]) && s.versions[key][|s.versions[key]| - 1].sourceHash == hash
  }

  /** A history whose last version is superseded, and is otherwise as it was. */
  function Closed(history: seq<VectorRecord>, replacement: Option<string>): seq<VectorRecord>
    requires history != []
  {
    history[..|history| - 1] + [history[|history| - 1].(superseded := true, supersededBy := replacement)]
  }

  ghost predicate Invalidated(s: State, s1: State, keys: seq<Key>, space: Space, hash: string,
                              replacement: Option<string>) {
    && s1.versions.Keys == s.versions.Keys && s1.keys == s.keys && s1.dimensions == s.dimensions
    && forall key :: key in s.versions ==>
         s1.versions[key] == (if key in keys && MadeFrom(s, space, hash, key)
                              then Closed(s.versions[key], replacement) else s.versions[key])
  }

  /** The records answered are the superseded versions, in the order of the keys. */
  ghost predicate AnswersInvalidated(s: State, s1: State, keys: seq<Key>, space: Space, hash: string,
                                     updated: seq<VectorRecord>) {
    if keys == [] then updated == []
    else if MadeFrom(s, space, hash, keys[0]) then
      && updated != [] && keys[0] in s1.versions && s1.versions[keys[0]] != []
      && updated[0] == s1.versions[keys[0]][|s1.versions[keys[0]]| - 1]
      && AnswersInvalidated(s, s1, keys[1..], space, hash, updated[1..])
    else AnswersInvalidated(s, s1, keys[1..], space, hash, updated)
  }

  lemma StaleIsMadeFrom(s: State, space: Space, hash: string, key: Key)
    ensures IsStale(s, space, hash, key) <==> MadeFrom(s, space, hash, key)
    ensures MadeFrom(s, space, hash, key) ==>
              forall replacement :: Retired(s.versions[key], replacement) == Closed(s.versions[key], replacement)
  {
    hide WellFormed;
  }

  /** Closing the history of one key does not touch the others. */
  lemma ClosingOneKey(s: State, key: Key, space: Space, hash: string, replacement: Option<string>, k: Key)
    requires MadeFrom(s, space, hash, key) && k != key
    ensures var s1 := s.(versions := s.versions[key := Closed(s.versions[key], replacement)]);
            MadeFrom(s1, space, hash, k) <==> MadeFrom(s, space, hash, k)
  {
    hide WellFormed;
  }

  lemma {:induction false} InvalidateIs(s: State, keys: seq<Key>, space: Space, hash: string,
                                        replacement: Option<string>)
    requires Distinct(keys)
    ensures var (s1, updated) := InvalidateAll(s, keys, space, hash, replacement);
            && Invalidated(s, s1, keys, space, hash, replacement)
            && AnswersInvalidated(s, s1, keys, space, hash, updated)
    decreases |keys|
  {
    hide WellFormed, IsStale, Retired, MadeFrom, Closed, Distinct, AnswersInvalidated;
    NoAnswers(s, InvalidateAll(s, keys, space, hash, replacement).0, space, hash);
    if keys != [] {
      RestIsDistinct(keys);
      var key, rest := keys[0], keys[1..];
      assert forall k :: k in keys <==> k == key || k in rest;
      StaleIsMadeFrom(s, space, hash, key);
      if IsStale(s, space, hash, key) {
        MadeFromHasHistory(s, space, hash, key);
        var s1 := s.(versions := s.versions[key := Closed(s.versions[key], replacement)]);
        InvalidateIs(s1, rest, space, hash, replacement);
        forall k | k != key ensures MadeFrom(s1, space, hash, k) <==> MadeFrom(s, space, hash, k) {
          ClosingOneKey(s, key, space, hash, replacement, k);
        }
        var (last, updated) := InvalidateAll(s1, rest, space, hash, replacement);
        SameAnswers(s, s1, last, rest, space, hash, updated);
        ClosedEnd(s.versions[key], replacement);
        assert last.versions[key] == s1.versions[key];
        FirstAnswer(s, last, keys, space, hash, last.versions[key][|last.versions[key]| - 1], updated);
      } else {
        InvalidateIs(s, rest, space, hash, replacement);
        NotAnswered(s, InvalidateAll(s, rest, space, hash, replacement).0, keys, space, hash,
                    InvalidateAll(s, rest, space, hash, replacement).1);
      }
    }
  }

  lemma NoAnswers(s: State, s1: State, space: Space, hash: string)
    ensures AnswersInvalidated(s, s1, [], space, hash, [])
  {}

  lemma ClosedEnd(history: seq<VectorRecord>, replacement: Option<string>)
    requires history != []
    ensures var closed := Closed(history, replacement);
            closed != [] && closed[|closed| - 1] == Superseded(Last(history), replacement)
  {
    hide WellFormed;
  }

  lemma FirstAnswer(s: State, s1: State, keys: seq<Key>, space: Space, hash: string, first: VectorRecord,
                    more: seq<VectorRecord>)
    requires keys != [] && MadeFrom(s, space, hash, keys[0]) && keys[0] in s1.versions && s1.versions[keys[0]] != []
    requires first == s1.versions[keys[0]][|s1.versions[keys[0]]| - 1]
    requires AnswersInvalidated(s, s1, keys[1..], space, hash, more)
    ensures AnswersInvalidated(s, s1, keys, space, hash, [first] + more)
  {
    hide MadeFrom, WellFormed;
    assert ([first] + more)[1..] == more;
  }

  lemma NotAnswered(s: State, s1: State, keys: seq<Key>, space: Space, hash: string, updated: seq<VectorRecord>)
    requires keys != [] && !MadeFrom(s, space, hash, keys[0])
    requires AnswersInvalidated(s, s1, keys[1..], space, hash, updated)
    ensures AnswersInvalidated(s, s1, keys, space, hash, updated)
  {
    hide MadeFrom, WellFormed;
  }

  lemma {:induction false} SameAnswers(s: State, t: State, s1: State, keys: seq<Key>, space: Space, hash: string,
                                       updated: seq<VectorRecord>)
    requires forall k :: k in keys ==> (MadeFrom(t, space, hash, k) <==> MadeFrom(s, space, hash, k))
    requires AnswersInvalidated(t, s1, keys, space, hash, updated)
    ensures AnswersInvalidated(s, s1, keys, space, hash, updated)
    decreases |keys|
  {
    hide MadeFrom, WellFormed;
    if keys != [] {
      assert keys[0] in keys && forall k :: k in keys[1..] ==> k in keys;
      SameAnswers(s, t, s1, keys[1..], space, hash,
                  if MadeFrom(t, space, hash, keys[0]) then updated[1..] else updated);
    }
  }

  /** Invalidating a snapshot supersedes, in place, exactly the active versions made from it in that collection, answers
      them in the order of the keys, and touches nothing else. */
  lemma InvalidateCallIs(s: State, tenant: string, collection: string, hash: string, replacement: Option<string>)
    requires tenant != "" && Sound(s)
    ensures var (s1, answer) := Step(s, Invalidate(tenant, collection, hash, replacement));
            && s1.versions.Keys == s.versions.Keys && s1.keys == s.keys && s1.dimensions == s.dimensions
            && (forall key :: key in s.versions ==>
                  s1.versions[key] == (if MadeFrom(s, Space(tenant, collection), hash, key)
                                       then Closed(s.versions[key], replacement) else s.versions[key]))
            && answer.Records?
            && AnswersInvalidated(s, s1, s.keys, Space(tenant, collection), hash, answer.records)
  {
    hide WellFormed, InvalidateAll, MadeFrom, Closed, AnswersInvalidated, Distinct, KeyHolds;
    InvalidateIs(s, s.keys, Space(tenant, collection), hash, replacement);
  }

  lemma MadeFromHasHistory(s: State, space: Space, hash: string, key: Key)
    requires MadeFrom(s, space, hash, key)
    ensures key in s.versions && s.versions[key] != [] && History(s, key) == s.versions[key]
  {}

  lemma RestIsDistinct(keys: seq<Key>)
    requires keys != [] && Distinct(keys)
    ensures Distinct(keys[1..]) && keys[0] !in keys[1..]
  {}

  // --------------------------------------------------------------- distance

  /** The squared distance adds up over the components. */
  lemma {:induction false} DistanceAdds(a: seq<real>, b: seq<real>, x: real, y: real)
    requires |a| == |b|
    ensures SquaredDistance([], []) == 0.0
    ensures SquaredDistance(a + [x], b + [y]) == SquaredDistance(a, b) + (x - y) * (x - y)
  {
    if a == [] {
      assert a + [x] == [x] && b + [y] == [y] && [x][1..] == [] && [y][1..] == [];
    } else {
      assert (a + [x])[1..] == a[1..] + [x] && (b + [y])[1..] == b[1..] + [y];
      DistanceAdds(a[1..], b[1..], x, y);
    }
  }

  lemma NegativeSquare(x: real, y: real, square: real)
    requires square == x * y && x < 0.0 && y < 0.0
    ensures square > 0.0
  {}

  lemma PositiveSquare(x: real, y: real, square: real)
    requires square == x * y && x > 0.0 && y > 0.0
    ensures square > 0.0
  {}

  lemma ZeroSquare(x: real, y: real, square: real)
    requires square == x * y && x == 0.0
    ensures square == 0.0
  {}

  lemma SquareSign(x: real, y: real, square: real)
    requires square == x * y && x == y
    ensures x != 0.0 ==> square > 0.0
    ensures x == 0.0 ==> square == 0.0
  {
    if x < 0.0 {
      NegativeSquare(x, y, square);
    } else if x > 0.0 {
      PositiveSquare(x, y, square);
    } else {
      ZeroSquare(x, y, square);
    }
  }

  lemma SquareCommutes(x: real, y: real)
    ensures (x - y) * (x - y) == (y - x) * (y - x)
  {}

  /** It is symmetric, never negative, and zero exactly between equal vectors. */
  lemma {:induction false} DistanceIsZeroIffEqual(a: seq<real>, b: seq<real>)
    requires |a| == |b|
    ensures SquaredDistance(a, b) == SquaredDistance(b, a)
    ensures SquaredDistance(a, b) >= 0.0
    ensures SquaredDistance(a, b) == 0.0 <==> a == b
  {
    if a != [] {
      DistanceIsZeroIffEqual(a[1..], b[1..]);
      var d := a[0] - b[0];
      var square := d * d;
      SquareSign(d, d, square);
      SquareCommutes(a[0], b[0]);
      assert a == [a[0]] + a[1..] && b == [b[0]] + b[1..];
      assert SquaredDistance(a, b) == square + SquaredDistance(a[1..], b[1..]);
    }
  }
}
