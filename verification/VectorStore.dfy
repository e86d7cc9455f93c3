/** The in-memory vector store: versioned records per tenant and collection, with nearest-neighbour search. */
module VectorStore {
  import opened Common

  datatype Embedding = Embedding(model: string, version: string, dimension: int)

  datatype Record = Record(
    tenantId: string,
    collection: string,
    recordId: string,
    vector: seq<real>,
    embedding: Embedding,
    sourceHash: string,
    superseded: bool,
    supersededBy: Option<string>)

  predicate WellFormed(r: Record) {
    && r.tenantId != "" && r.collection != "" && r.recordId != "" && r.sourceHash != ""
    && r.embedding.dimension > 0
    && |r.vector| == r.embedding.dimension
  }

  /** What the constructor lets through. */
  type VectorRecord = r: Record | WellFormed(r)
    witness Record("t", "c", "r", [0.0], Embedding("m", "v", 1), "h", false, None)

  datatype Key = Key(tenant: string, collection: string, id: string)
  datatype Space = Space(tenant: string, collection: string)

  datatype Error = ValueError | TenantIsolation | DimensionMismatch | NotFound

  /** The two dictionaries; `keys` holds the insertion order of `versions`. */
  datatype State = State(keys: seq<Key>, versions: map<Key, seq<VectorRecord>>, dimensions: map<Space, int>)

  const EMPTY := State([], map[], map[])

  function Last(history: seq<VectorRecord>): VectorRecord
    requires history != []
  {
    history[|history| - 1]
  }

  predicate HasActive(history: seq<VectorRecord>) {
    history != [] && !Last(history).superseded
  }

  function Superseded(r: VectorRecord, replacement: Option<string>): VectorRecord {
    r.(superseded := true, supersededBy := replacement)
  }

  /** The history with its active version, if it has one, superseded. */
  function Retired(history: seq<VectorRecord>, replacement: Option<string>): seq<VectorRecord> {
    if HasActive(history) then history[..|history| - 1] + [Superseded(Last(history), replacement)] else history
  }

  // --------------------------------------------------------------- upsert

  function KeyOf(r: VectorRecord): Key {
    Key(r.tenantId, r.collection, r.recordId)
  }

  function SpaceOf(r: VectorRecord): Space {
    Space(r.tenantId, r.collection)
  }

  function History(s: State, key: Key): seq<VectorRecord> {
    if key in s.versions then s.versions[key] else []
  }

  predicate Fits(s: State, space: Space, dimension: int) {
    space in s.dimensions ==> s.dimensions[space] == dimension
  }

  function Fresh(r: VectorRecord): VectorRecord {
    r.(superseded := false, supersededBy := None)
  }

  function Stored(s: State, r: VectorRecord): State {
    var key := KeyOf(r);
    State(if key in s.versions then s.keys else s.keys + [key],
          s.versions[key := Retired(History(s, key), Some(r.sourceHash)) + [Fresh(r)]],
          s.dimensions[SpaceOf(r) := r.embedding.dimension])
  }

  predicate IsReplay(s: State, r: VectorRecord) {
    var history := History(s, KeyOf(r));
    HasActive(history) && Last(history).sourceHash == r.sourceHash
  }

  function UpsertOne(s: State, tenant: string, r: VectorRecord): Result<(State, VectorRecord), Error> {
    if r.tenantId != tenant then Err(TenantIsolation)
    else if !Fits(s, SpaceOf(r), r.embedding.dimension) then Err(DimensionMismatch)
    else if IsReplay(s, r) then Ok((s, Last(History(s, KeyOf(r)))))
    else Ok((Stored(s, r), Fresh(r)))
  }

  /** The state after the records before the first refused one, and the records returned or the error raised. */
  function UpsertAll(s: State, tenant: string, records: seq<VectorRecord>): (State, Result<seq<VectorRecord>, Error>)
    decreases |records|
  {
    if records == [] then (s, Ok([]))
    else
      match UpsertOne(s, tenant, records[0])
      case Err(e) => (s, Err(e))
      case Ok((s1, stored)) =>
        var (s2, more) := UpsertAll(s1, tenant, records[1..]);
        (s2, if more.Ok? then Ok([stored] + more.value) else more)
  }

  // --------------------------------------------------------------- search

  datatype Hit = Hit(record: VectorRecord, distance: real)

  /** The square of the L2 distance, which orders vectors as the distance does. */
  function SquaredDistance(a: seq<real>, b: seq<real>): real
    requires |a| == |b|
  {
    if a == [] then 0.0 else (a[0] - b[0]) * (a[0] - b[0]) + SquaredDistance(a[1..], b[1..])
  }

  predicate IsCandidate(s: State, space: Space, key: Key) {
    Space(key.tenant, key.collection) == space && HasActive(History(s, key))
  }

  /** The active records of a collection, in insertion order of their keys. */
  function Candidates(s: State, keys: seq<Key>, space: Space): seq<VectorRecord> {
    if keys == [] then []
    else (if IsCandidate(s, space, keys[0]) then [Last(History(s, keys[0]))] else []) + Candidates(s, keys[1..], space)
  }

  /** The distances, or nothing where the strict `zip` would raise. */
  function Scored(query: seq<real>, records: seq<VectorRecord>): Option<seq<Hit>> {
    if records == [] then Some([])
    else if |query| != |records[0].vector| then None
    else
      match Scored(query, records[1..])
      case None => None
      case Some(more) => Some([Hit(records[0], SquaredDistance(query, records[0].vector))] + more)
  }

  function Insert(h: Hit, sorted: seq<Hit>): seq<Hit> {
    if sorted == [] || h.distance <= sorted[0].distance then [h] + sorted
    else [sorted[0]] + Insert(h, sorted[1..])
  }

  /** The stable sort by distance. */
  function ByDistance(hits: seq<Hit>): seq<Hit> {
    if hits == [] then [] else Insert(hits[0], ByDistance(hits[1..]))
  }

  function FirstK<T>(xs: seq<T>, k: nat): seq<T> {
    xs[..if k <= |xs| then k else |xs|]
  }

  function Search(s: State, tenant: string, collection: string, query: seq<real>, k: int): Result<seq<Hit>, Error> {
    var space := Space(tenant, collection);
    if tenant == "" || k <= 0 then Err(ValueError)
    else if !Fits(s, space, |query|) then Err(DimensionMismatch)
    else
      match Scored(query, Candidates(s, s.keys, space))
      case None => Err(ValueError)
      case Some(hits) => Ok(FirstK(ByDistance(hits), k))
  }

  // ------------------------------------------------- delete and invalidate

  function Without(keys: seq<Key>, key: Key): seq<Key> {
    if keys == [] then [] else (if keys[0] == key then [] else [keys[0]]) + Without(keys[1..], key)
  }

  function Dropped(s: State, key: Key): State {
    s.(keys := Without(s.keys, key), versions := s.versions - {key})
  }

  function DeleteAll(s: State, space: Space, ids: seq<string>): (State, nat)
    decreases |ids|
  {
    if ids == [] then (s, 0)
    else
      var key := Key(space.tenant, space.collection, ids[0]);
      if key in s.versions then
        var (s1, n) := DeleteAll(Dropped(s, key), space, ids[1..]);
        (s1, n + 1)
      else DeleteAll(s, space, ids[1..])
  }

  predicate IsStale(s: State, space: Space, hash: string, key: Key) {
    IsCandidate(s, space, key) && Last(History(s, key)).sourceHash == hash
  }

  function InvalidateAll(s: State, keys: seq<Key>, space: Space, hash: string, replacement: Option<string>)
      : (State, seq<VectorRecord>)
    decreases |keys|
  {
    if keys == [] then (s, [])
    else if IsStale(s, space, hash, keys[0]) then
      var history := History(s, keys[0]);
      var (s1, more) := InvalidateAll(s.(versions := s.versions[keys[0] := Retired(history, replacement)]), keys[1..],
                                      space, hash, replacement);
      (s1, [Superseded(Last(history), replacement)] + more)
    else InvalidateAll(s, keys[1..], space, hash, replacement)
  }

  // -------------------------------------------------------------- one call

  datatype Call =
    | Upsert(tenant: string, records: seq<VectorRecord>)
    | Find(tenant: string, collection: string, query: seq<real>, k: int)
    | Get(tenant: string, collection: string, id: string)
    | ListVersions(tenant: string, collection: string, id: string)
    | Delete(tenant: string, collection: string, ids: seq<string>)
    | Invalidate(tenant: string, collection: string, hash: string, replacement: Option<string>)

  datatype Answer =
    | Raised(error: Error)
    | Records(records: seq<VectorRecord>)
    | Hits(hits: seq<Hit>)
    | Count(n: nat)

  function RecordsOrError(r: Result<seq<VectorRecord>, Error>): Answer {
    if r.Ok? then Records(r.value) else Raised(r.error)
  }

  function HitsOrError(r: Result<seq<Hit>, Error>): Answer {
    if r.Ok? then Hits(r.value) else Raised(r.error)
  }

  function Step(s: State, call: Call): (State, Answer) {
    if call.tenant == "" then (s, Raised(ValueError))
    else
      match call
      case Upsert(tenant, records) =>
        var (s1, r) := UpsertAll(s, tenant, records);
        (s1, RecordsOrError(r))
      case Find(tenant, collection, query, k) => (s, HitsOrError(Search(s, tenant, collection, query, k)))
      case Get(tenant, collection, id) =>
        var history := History(s, Key(tenant, collection, id));
        (s, if history == [] then Raised(NotFound) else Records([Last(history)]))
      case ListVersions(tenant, collection, id) => (s, Records(History(s, Key(tenant, collection, id))))
      case Delete(tenant, collection, ids) =>
        var (s1, n) := DeleteAll(s, Space(tenant, collection), ids);
        (s1, Count(n))
      case Invalidate(tenant, collection, hash, replacement) =>
        var (s1, updated) := InvalidateAll(s, s.keys, Space(tenant, collection), hash, replacement);
        (s1, Records(updated))
  }

  function Run(s: State, calls: seq<Call>): (State, seq<Answer>)
    decreases |calls|
  {
    if calls == [] then (s, [])
    else
      var (s1, answer) := Step(s, calls[0]);
      var (s2, more) := Run(s1, calls[1..]);
      (s2, [answer] + more)
  }

  // -------------------------------------------------------------- invariant

  /** Every version but the last is superseded. */
  ghost predicate OnlyLastActive(history: seq<VectorRecord>) {
    forall i :: 0 <= i < |history| - 1 ==> history[i].superseded
  }

  ghost predicate Filed(key: Key, history: seq<VectorRecord>, dimension: int) {
    forall i :: 0 <= i < |history| ==> KeyOf(history[i]) == key && |history[i].vector| == dimension
  }

  ghost predicate KeyHolds(s: State, key: Key)
    requires key in s.versions
  {
    var space := Space(key.tenant, key.collection);
    && s.versions[key] != []
    && OnlyLastActive(s.versions[key])
    && space in s.dimensions
    && Filed(key, s.versions[key], s.dimensions[space])
  }

  ghost predicate Distinct(keys: seq<Key>) {
    forall i, j :: 0 <= i < j < |keys| ==> keys[i] != keys[j]
  }

  ghost predicate Sound(s: State) {
    && Distinct(s.keys)
    && (forall key :: key in s.keys <==> key in s.versions)
    && forall key :: key in s.versions ==> KeyHolds(s, key)
  }
}
