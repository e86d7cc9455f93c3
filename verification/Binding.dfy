/** Binding a measurement submission to the experiment it was registered for. */
module Binding {
  import opened Common
  import opened TextOrder

  datatype Role = Baseline | Treatment | Control | MatchedCluster

  datatype Arm = Arm(id: string, role: Role, clusterRef: Option<string>)

  datatype Metric = Metric(id: string, description: string)

  datatype Cell = Cell(locale: string, browserPolicy: string, clusterRef: string, repeatCount: int)

  datatype Registration = Registration(
    experimentId: string,
    tenantId: string,
    arms: seq<Arm>,
    metrics: seq<Metric>,
    cell: Cell,
    assetHash: string,
    contentFingerprint: Option<string>)

  datatype MeasuredMetric = MeasuredMetric(id: string, hash: string, weight: real)

  datatype Observation = Observation(id: string, armId: string, cell: Cell, assetHash: Option<string>,
                                     clusterRef: Option<string>)

  datatype Submission = Submission(
    experimentId: string,
    tenantId: string,
    anchoredHash: string,
    contentFingerprint: string,
    metrics: seq<MeasuredMetric>,
    observations: seq<Observation>)

  datatype Weights = Enforce(registered: seq<(string, real)>) | NotRegistered

  /** The hash of a registration as a chain entry, and of a metric definition. */
  datatype Hash = Hash(registration: Registration -> string, metric: Metric -> string)

  datatype Reason = PostRegistrationMutation | ConflictingRegistration | MetricMutation | CellMismatch | Contamination
      | AssetHashConflict

  datatype Error =
    | NotFound(experimentId: string)
    | Rejected(experimentId: string, reason: Reason, field: Option<string>)

  datatype BoundExperiment = BoundExperiment(
    experimentId: string,
    tenantId: string,
    anchoredHash: string,
    cell: Cell,
    armRoles: seq<(string, Role)>,
    metricIds: seq<string>,
    observations: seq<Observation>)

  // ---------------------------------------------------------------- look-ups

  /** The entry of a dictionary built from the list: the last with this id. */
  function MetricById(metrics: seq<Metric>, id: string): (r: Option<Metric>)
    ensures r.Some? ==> r.value in metrics && r.value.id == id
    ensures r.None? <==> forall m :: m in metrics ==> m.id != id
  {
    if metrics == [] then None
    else if metrics[|metrics| - 1].id == id then Some(metrics[|metrics| - 1])
    else
      assert metrics == metrics[..|metrics| - 1] + [metrics[|metrics| - 1]];
      MetricById(metrics[..|metrics| - 1], id)
  }

  function ArmById(arms: seq<Arm>, id: string): (r: Option<Arm>)
    ensures r.Some? ==> r.value in arms && r.value.id == id
    ensures r.None? <==> forall a :: a in arms ==> a.id != id
  {
    if arms == [] then None
    else if arms[|arms| - 1].id == id then Some(arms[|arms| - 1])
    else
      assert arms == arms[..|arms| - 1] + [arms[|arms| - 1]];
      ArmById(arms[..|arms| - 1], id)
  }

  /** The first registered weight for the metric. */
  function WeightFor(pairs: seq<(string, real)>, id: string): Option<real> {
    if pairs == [] then None else if pairs[0].0 == id then Some(pairs[0].1) else WeightFor(pairs[1..], id)
  }

  method RegisteredWeightFor(pairs: seq<(string, real)>, id: string) returns (r: Option<real>)
    ensures r == WeightFor(pairs, id)
    ensures r.None? <==> forall p :: p in pairs ==> p.0 != id
    ensures r.Some? ==> exists i :: 0 <= i < |pairs| && pairs[i] == (id, r.value)
                                    && forall k :: 0 <= k < i ==> pairs[k].0 != id
  {
    var i := 0;
    assert pairs[0..] == pairs;
    while i < |pairs|
      invariant 0 <= i <= |pairs|
      invariant WeightFor(pairs[i..], id) == WeightFor(pairs, id)
      invariant forall k :: 0 <= k < i ==> pairs[k].0 != id
    {
      assert pairs[i..][1..] == pairs[i + 1..];
      if pairs[i].0 == id {
        return Some(pairs[i].1);
      }
      i := i + 1;
    }
    r := None;
  }

  // ------------------------------------------------------------- the metrics

  ghost predicate WeightAgrees(weights: Weights, m: MeasuredMetric) {
    weights.Enforce? ==> WeightFor(weights.registered, m.id) == Some(m.weight)
  }

  ghost predicate MetricAgrees(h: Hash, reg: Registration, weights: Weights, m: MeasuredMetric) {
    && MetricById(reg.metrics, m.id).Some?
    && h.metric(MetricById(reg.metrics, m.id).value) == m.hash
    && WeightAgrees(weights, m)
  }

  method RejectMetricMutation(h: Hash, reg: Registration, metrics: seq<MeasuredMetric>, weights: Weights)
      returns (r: Option<Error>)
    ensures r.None? <==> forall m :: m in metrics ==> MetricAgrees(h, reg, weights, m)
    ensures r.Some? ==> exists i :: 0 <= i < |metrics| && !MetricAgrees(h, reg, weights, metrics[i])
                                    && (forall k :: 0 <= k < i ==> MetricAgrees(h, reg, weights, metrics[k]))
                                    && r == Some(Rejected(reg.experimentId, MetricMutation, Some(metrics[i].id)))
  {
    var i := 0;
    while i < |metrics|
      invariant 0 <= i <= |metrics|
      invariant forall k :: 0 <= k < i ==> MetricAgrees(h, reg, weights, metrics[k])
    {
      var measured := metrics[i];
      var error := Rejected(reg.experimentId, MetricMutation, Some(measured.id));
      var registered := MetricById(reg.metrics, measured.id);
      assert measured in metrics;
      if registered == None {
        return Some(error);
      }
      if h.metric(registered.value) != measured.hash {
        assert !MetricAgrees(h, reg, weights, metrics[i]);
        return Some(error);
      }
      if weights.Enforce? {
        var weight := RegisteredWeightFor(weights.registered, measured.id);
        if weight == None || weight.value != measured.weight {
          return Some(error);
        }
      }
      i := i + 1;
    }
    r := None;
  }

  // ---------------------------------------------------------------- the cell

  /** The first field in which two cells differ. */
  function CellDifference(cell: Cell, registered: Cell): (r: Option<string>)
    ensures r.None? <==> cell == registered
  {
    if cell.locale != registered.locale then Some("locale")
    else if cell.browserPolicy != registered.browserPolicy then Some("browser_policy")
    else if cell.clusterRef != registered.clusterRef then Some("query_cluster_ref")
    else if cell.repeatCount != registered.repeatCount then Some("repeat_count")
    else None
  }

  method RejectCellMismatch(reg: Registration, observations: seq<Observation>) returns (r: Option<Error>)
    ensures r.None? <==> forall o :: o in observations ==> o.cell == reg.cell
    ensures r.Some? ==> exists i :: 0 <= i < |observations| && observations[i].cell != reg.cell
                                    && (forall k :: 0 <= k < i ==> observations[k].cell == reg.cell)
                                    && r == Some(Rejected(reg.experimentId, CellMismatch,
                                                          CellDifference(observations[i].cell, reg.cell)))
  {
    var i := 0;
    while i < |observations|
      invariant 0 <= i <= |observations|
      invariant forall k :: 0 <= k < i ==> observations[k].cell == reg.cell
    {
      var different := CellDifference(observations[i].cell, reg.cell);
      if different != None {
        return Some(Rejected(reg.experimentId, CellMismatch, different));
      }
      i := i + 1;
    }
    r := None;
  }

  // ----------------------------------------------------------- contamination

  ghost predicate IsMatched(reg: Registration) {
    (exists a :: a in reg.arms && a.role != Baseline) && forall a :: a in reg.arms && a.role != Baseline ==>
          a.role == MatchedCluster
  }

  /** The observation names a registered arm, its asset, and the cluster registered for it. */
  ghost predicate Assigned(reg: Registration, o: Observation) {
    var arm := ArmById(reg.arms, o.armId);
    && arm.Some?
    && (o.assetHash.Some? ==> o.assetHash.value == reg.assetHash)
    && (IsMatched(reg) && o.clusterRef.Some? && arm.value.clusterRef.Some? ==> o.clusterRef == arm.value.clusterRef)
  }

  function RoleOf(reg: Registration, o: Observation): Role {
    var arm := ArmById(reg.arms, o.armId);
    if arm.Some? then arm.value.role else Baseline
  }

  ghost predicate SameCluster(o: Observation, p: Observation) {
    o.clusterRef.Some? && o.clusterRef == p.clusterRef
  }

  /** A matched-cluster design: two arms claim one cluster. */
  ghost predicate Contested(reg: Registration, o: Observation, p: Observation) {
    IsMatched(reg) && SameCluster(o, p) && o.armId != p.armId
  }

  /** An asset design: one cluster is seen under treatment by `o` and under control by `p`. */
  ghost predicate Crossed(reg: Registration, o: Observation, p: Observation) {
    !IsMatched(reg) && SameCluster(o, p) && RoleOf(reg, o) == Treatment && RoleOf(reg, p) == Control
  }

  /** Two observations that may stand in one submission. */
  ghost predicate Compatible(reg: Registration, o: Observation, p: Observation) {
    o.id != p.id && !Contested(reg, o, p) && !Crossed(reg, o, p) && !Crossed(reg, p, o)
  }

  /** What the loop finds wrong with observation `j`, given the ones before it. */
  ghost function ObservationError(reg: Registration, obs: seq<Observation>, j: nat): Option<Error>
    requires j < |obs|
  {
    var o := obs[j];
    var arm := ArmById(reg.arms, o.armId);
    if arm.None? then Some(Rejected(reg.experimentId, Contamination, Some(o.armId)))
    else if exists i :: 0 <= i < j && obs[i].id == o.id then Some(Rejected(reg.experimentId, Contamination, Some(o.id)))
    else if o.assetHash.Some? && o.assetHash.value != reg.assetHash then
        Some(Rejected(reg.experimentId, AssetHashConflict, Some(o.armId)))
    else if IsMatched(reg) && o.clusterRef.Some? && arm.value.clusterRef.Some?
        && o.clusterRef != arm.value.clusterRef then
      Some(Rejected(reg.experimentId, Contamination, Some(o.armId)))
    else if exists i :: 0 <= i < j && Contested(reg, obs[i], o) then
        Some(Rejected(reg.experimentId, Contamination, o.clusterRef))
    else None
  }

  ghost function ClustersUnder(reg: Registration, obs: seq<Observation>, role: Role): set<string> {
    set o | o in obs && o.clusterRef.Some? && !IsMatched(reg) && RoleOf(reg, o) == role :: o.clusterRef.value
  }

  /** The error of the first bad observation at or after `j`, else that of the least cluster seen under both roles. */
  ghost function ContaminationError(reg: Registration, obs: seq<Observation>, j: nat): Option<Error>
    requires j <= |obs|
    decreases |obs| - j
  {
    if j == |obs| then
      var overlap := ClustersUnder(reg, obs, Treatment) * ClustersUnder(reg, obs, Control);
      if overlap == {} then None else Some(Rejected(reg.experimentId, Contamination, Some(Least(overlap))))
    else if ObservationError(reg, obs, j).Some? then ObservationError(reg, obs, j)
    else ContaminationError(reg, obs, j + 1)
  }

  /** The dictionary from cluster to owner after the first `j` observations. */
  ghost predicate OwnersAfter(reg: Registration, obs: seq<Observation>, j: nat, owner: map<string, string>)
    requires j <= |obs|
  {
    && (forall i :: 0 <= i < j && obs[i].clusterRef.Some? && IsMatched(reg) ==>
          obs[i].clusterRef.value in owner && owner[obs[i].clusterRef.value] == obs[i].armId)
    && (forall c :: c in owner ==> exists i :: 0 <= i < j && obs[i].clusterRef == Some(c) && owner[c] == obs[i].armId)
  }

  ghost predicate SeenAfter(obs: seq<Observation>, j: nat, seen: set<string>)
    requires j <= |obs|
  {
    && (forall i :: 0 <= i < j ==> obs[i].id in seen)
    && (forall id :: id in seen ==> exists i :: 0 <= i < j && obs[i].id == id)
  }

  method MatchedDesign(reg: Registration) returns (matched: bool)
    ensures matched == IsMatched(reg)
  {
    var roles := set a | a in reg.arms && a.role != Baseline :: a.role;
    matched := roles == {MatchedCluster};
    assert forall a :: a in reg.arms && a.role != Baseline ==> a.role in roles;
    if matched {
      assert MatchedCluster in roles;
    }
    if IsMatched(reg) {
      assert forall r :: r in roles ==> r == MatchedCluster;
      assert MatchedCluster in roles;
    }
  }

  function CellsOf(roleCells: map<Role, set<string>>, role: Role): set<string> {
    if role in roleCells then roleCells[role] else {}
  }

  lemma ClustersSnoc(reg: Registration, obs: seq<Observation>, i: nat, role: Role)
    requires i < |obs|
    ensures var o := obs[i];
            ClustersUnder(reg, obs[..i + 1], role) ==
            ClustersUnder(reg, obs[..i], role) +
            (if o.clusterRef.Some? && !IsMatched(reg) && RoleOf(reg, o) == role then {o.clusterRef.value} else {})
  {
    hide IsMatched, RoleOf;
    assert forall o :: o in obs[..i + 1] <==> o in obs[..i] || o == obs[i];
  }

  lemma NothingSeen(reg: Registration, obs: seq<Observation>)
    ensures SeenAfter(obs, 0, {}) && OwnersAfter(reg, obs, 0, map[])
    ensures forall role :: ClustersUnder(reg, obs[..0], role) == {}
  {}

  lemma SeenNext(obs: seq<Observation>, i: nat, seen: set<string>)
    requires i < |obs| && SeenAfter(obs, i, seen)
    ensures obs[i].id in seen <==> exists k :: 0 <= k < i && obs[k].id == obs[i].id
    ensures SeenAfter(obs, i + 1, seen + {obs[i].id})
  {}

  lemma OwnerNext(reg: Registration, obs: seq<Observation>, i: nat, owner: map<string, string>)
    requires i < |obs| && OwnersAfter(reg, obs, i, owner)
    ensures var o := obs[i];
            if IsMatched(reg) && o.clusterRef.Some? then
              var next := if o.clusterRef.value in owner then owner else owner[o.clusterRef.value := o.armId];
              && (next[o.clusterRef.value] != o.armId <==> exists k :: 0 <= k < i && Contested(reg, obs[k], o))
              && (next[o.clusterRef.value] == o.armId ==> OwnersAfter(reg, obs, i + 1, next))
            else OwnersAfter(reg, obs, i + 1, owner) && !exists k :: 0 <= k < i && Contested(reg, obs[k], o)
  {
    hide IsMatched;
    var o := obs[i];
    if IsMatched(reg) && o.clusterRef.Some? {
      var c := o.clusterRef.value;
      if c in owner && owner[c] != o.armId {
        var k :| 0 <= k < i && obs[k].clusterRef == Some(c) && owner[c] == obs[k].armId;
        assert Contested(reg, obs[k], o);
      }
    }
  }

  lemma ObservationPasses(reg: Registration, obs: seq<Observation>, i: nat)
    requires i < |obs|
    ensures ContaminationError(reg, obs, i)
         == if ObservationError(reg, obs, i).Some? then ObservationError(reg, obs, i)
             else ContaminationError(reg, obs, i + 1)
  {}

  method RejectContamination(reg: Registration, obs: seq<Observation>) returns (r: Option<Error>)
    ensures r == ContaminationError(reg, obs, 0)
  {
    hide IsMatched, ContaminationError, SeenAfter, OwnersAfter, Contested, ClustersUnder;
    var matched := MatchedDesign(reg);
    var seen: set<string> := {};
    var roleCells: map<Role, set<string>> := map[];
    var clusterOwner: map<string, string> := map[];
    var i := 0;
    NothingSeen(reg, obs);
    while i < |obs|
      invariant 0 <= i <= |obs|
      invariant ContaminationError(reg, obs, i) == ContaminationError(reg, obs, 0)
      invariant SeenAfter(obs, i, seen)
      invariant OwnersAfter(reg, obs, i, clusterOwner)
      invariant CellsOf(roleCells, Treatment) == ClustersUnder(reg, obs[..i], Treatment)
      invariant CellsOf(roleCells, Control) == ClustersUnder(reg, obs[..i], Control)
    {
      var o := obs[i];
      ObservationPasses(reg, obs, i);
      SeenNext(obs, i, seen);
      OwnerNext(reg, obs, i, clusterOwner);
      ClustersSnoc(reg, obs, i, Treatment);
      ClustersSnoc(reg, obs, i, Control);
      var found := ArmById(reg.arms, o.armId);
      if found == None {
        return Some(Rejected(reg.experimentId, Contamination, Some(o.armId)));
      }
      var arm := found.value;
      if o.id in seen {
        return Some(Rejected(reg.experimentId, Contamination, Some(o.id)));
      }
      seen := seen + {o.id};
      if o.assetHash != None && o.assetHash.value != reg.assetHash {
        return Some(Rejected(reg.experimentId, AssetHashConflict, Some(o.armId)));
      }
      if o.clusterRef != None {
        if matched {
          if arm.clusterRef != None && o.clusterRef != arm.clusterRef {
            return Some(Rejected(reg.experimentId, Contamination, Some(o.armId)));
          }
          if o.clusterRef.value !in clusterOwner {
            clusterOwner := clusterOwner[o.clusterRef.value := arm.id];
          }
          if clusterOwner[o.clusterRef.value] != arm.id {
            return Some(Rejected(reg.experimentId, Contamination, o.clusterRef));
          }
        } else {
          roleCells := roleCells[arm.role := CellsOf(roleCells, arm.role) + {o.clusterRef.value}];
        }
      }
      i := i + 1;
    }
    assert obs[..i] == obs;
    var overlap := CellsOf(roleCells, Treatment) * CellsOf(roleCells, Control);
    NoObservationLeft(reg, obs);
    r := if overlap == {} then None else Some(Rejected(reg.experimentId, Contamination, Some(Least(overlap))));
  }

  lemma NoObservationLeft(reg: Registration, obs: seq<Observation>)
    ensures var overlap := ClustersUnder(reg, obs, Treatment) * ClustersUnder(reg, obs, Control);
            ContaminationError(reg, obs, |obs|) ==
            if overlap == {} then None else Some(Rejected(reg.experimentId, Contamination, Some(Least(overlap))))
  {}

  // ------------------------------------------------------------- the binding

  /** Every two observations, at different places, may stand together. */
  ghost predicate AllCompatible(reg: Registration, obs: seq<Observation>) {
    forall i, j :: 0 <= i < j < |obs| ==> Compatible(reg, obs[i], obs[j])
  }

  /** What a submission has to meet, said without any order of checking. */
  ghost predicate Bindable(h: Hash, reg: Registration, sub: Submission, weights: Weights) {
    && reg.tenantId == sub.tenantId
    && reg.contentFingerprint == Some(sub.contentFingerprint)
    && h.registration(reg) == sub.anchoredHash
    && (forall m :: m in sub.metrics ==> MetricAgrees(h, reg, weights, m))
    && (forall o :: o in sub.observations ==> o.cell == reg.cell && Assigned(reg, o))
    && AllCompatible(reg, sub.observations)
  }

  function Bound(reg: Registration, sub: Submission): BoundExperiment {
    BoundExperiment(reg.experimentId, reg.tenantId, sub.anchoredHash, reg.cell,
                    seq(|reg.arms|, i requires 0 <= i < |reg.arms| => (reg.arms[i].id, reg.arms[i].role)),
                    seq(|reg.metrics|, i requires 0 <= i < |reg.metrics| => reg.metrics[i].id),
                    sub.observations)
  }

  /** No guard rejects: the registration is the one anchored, the metrics agree, the cells match, and no observation or
      cluster is out of place. */
  ghost predicate PassesEveryGuard(h: Hash, reg: Registration, sub: Submission, weights: Weights) {
    && reg.contentFingerprint == Some(sub.contentFingerprint) && h.registration(reg) == sub.anchoredHash
    && MetricsAgree(h, reg, sub, weights) && CellsMatch(reg, sub)
    && ContaminationError(reg, sub.observations, 0).None?
  }

  /** What a bound experiment carries: the registration's identity, cell, arms and metrics, in order, and what was
      submitted for it. */
  ghost predicate BindsWhatIsRegistered(reg: Registration, sub: Submission, bound: BoundExperiment) {
    && bound.experimentId == reg.experimentId && bound.tenantId == reg.tenantId && bound.cell == reg.cell
    && bound.anchoredHash == sub.anchoredHash && bound.observations == sub.observations
    && |bound.armRoles| == |reg.arms|
    && (forall i :: 0 <= i < |reg.arms| ==> bound.armRoles[i] == (reg.arms[i].id, reg.arms[i].role))
    && |bound.metricIds| == |reg.metrics|
    && (forall i :: 0 <= i < |reg.metrics| ==> bound.metricIds[i] == reg.metrics[i].id)
  }

  lemma SomeoneContested(reg: Registration, obs: seq<Observation>, j: nat)
    requires j < |obs| && ObservationError(reg, obs, j).Some?
    ensures !Assigned(reg, obs[j]) || exists i :: 0 <= i < j && !Compatible(reg, obs[i], obs[j])
  {
    hide IsMatched;
    var o := obs[j];
    if exists i :: 0 <= i < j && obs[i].id == o.id {
      var i :| 0 <= i < j && obs[i].id == o.id;
      assert !Compatible(reg, obs[i], o);
    } else if exists i :: 0 <= i < j && Contested(reg, obs[i], o) {
      var i :| 0 <= i < j && Contested(reg, obs[i], o);
      assert !Compatible(reg, obs[i], o);
    }
  }

  lemma NobodyContested(reg: Registration, obs: seq<Observation>, j: nat)
    requires j < |obs| && ObservationError(reg, obs, j).None?
    ensures Assigned(reg, obs[j])
    ensures forall i :: 0 <= i < j ==> obs[i].id != obs[j].id && !Contested(reg, obs[i], obs[j])
  {
    hide IsMatched;
  }

  lemma {:induction false} NoErrorFrom(reg: Registration, obs: seq<Observation>, j: nat)
    requires j <= |obs|
    ensures ContaminationError(reg, obs, j).None? <==>
              (forall i :: j <= i < |obs| ==> ObservationError(reg, obs, i).None?)
              && ClustersUnder(reg, obs, Treatment) * ClustersUnder(reg, obs, Control) == {}
    decreases |obs| - j
  {
    hide ObservationError, ClustersUnder;
    if j == |obs| {
      NoObservationLeft(reg, obs);
    } else {
      ObservationPasses(reg, obs, j);
      NoErrorFrom(reg, obs, j + 1);
    }
  }

  /** No cluster under both roles means no observation crosses another, whichever comes first. */
  lemma NoOverlapIffNoneCross(reg: Registration, obs: seq<Observation>)
    ensures ClustersUnder(reg, obs, Treatment) * ClustersUnder(reg, obs, Control) == {}
       <==> forall i, j :: 0 <= i < |obs| && 0 <= j < |obs| ==> !Crossed(reg, obs[i], obs[j])
  {
    hide IsMatched, RoleOf;
    var t, c := ClustersUnder(reg, obs, Treatment), ClustersUnder(reg, obs, Control);
    if i, j :| 0 <= i < |obs| && 0 <= j < |obs| && Crossed(reg, obs[i], obs[j]) {
      assert obs[i].clusterRef.value in t * c;
    }
    if x :| x in t * c {
      var o :| o in obs && o.clusterRef == Some(x) && !IsMatched(reg) && RoleOf(reg, o) == Treatment;
      var p :| p in obs && p.clusterRef == Some(x) && !IsMatched(reg) && RoleOf(reg, p) == Control;
      var i :| 0 <= i < |obs| && obs[i] == o;
      var j :| 0 <= j < |obs| && obs[j] == p;
      assert Crossed(reg, obs[i], obs[j]);
    }
  }

  /** The stateful scan accepts exactly the observations that are assigned and pairwise compatible. */
  lemma ScanIsPairwise(reg: Registration, obs: seq<Observation>)
    ensures ContaminationError(reg, obs, 0).None? <==>
              (forall o :: o in obs ==> Assigned(reg, o)) && AllCompatible(reg, obs)
  {
    hide IsMatched, ContaminationError, ClustersUnder, Assigned, Contested, Crossed, ObservationError;
    NoErrorFrom(reg, obs, 0);
    NoOverlapIffNoneCross(reg, obs);
    if ContaminationError(reg, obs, 0).None? {
      forall j | 0 <= j < |obs|
        ensures Assigned(reg, obs[j]) && forall i :: 0 <= i < j ==>
                  obs[i].id != obs[j].id && !Contested(reg, obs[i], obs[j])
      {
        NobodyContested(reg, obs, j);
      }
    } else if (forall o :: o in obs ==> Assigned(reg, o)) && AllCompatible(reg, obs) {
      forall j | 0 <= j < |obs|
        ensures ObservationError(reg, obs, j).None?
      {
        if ObservationError(reg, obs, j).Some? { SomeoneContested(reg, obs, j); }
      }
      forall i, j | 0 <= i < |obs| && 0 <= j < |obs|
        ensures !Crossed(reg, obs[i], obs[j])
      {
        if i == j { NotCrossedWithItself(reg, obs[i]); }
        else if i < j { assert Compatible(reg, obs[i], obs[j]); }
        else { assert Compatible(reg, obs[j], obs[i]); }
      }
    }
  }

  lemma NotCrossedWithItself(reg: Registration, o: Observation)
    ensures !Crossed(reg, o, o)
  {}

  ghost predicate Anchored(h: Hash, reg: Registration, sub: Submission) {
    reg.contentFingerprint == Some(sub.contentFingerprint) && h.registration(reg) == sub.anchoredHash
  }

  ghost predicate MetricsAgree(h: Hash, reg: Registration, sub: Submission, weights: Weights) {
    forall m :: m in sub.metrics ==> MetricAgrees(h, reg, weights, m)
  }

  ghost predicate CellsMatch(reg: Registration, sub: Submission) {
    forall o :: o in sub.observations ==> o.cell == reg.cell
  }

  /** The `i`th metric is the first that does not agree. */
  ghost predicate FirstBadMetric(h: Hash, reg: Registration, sub: Submission, weights: Weights, i: int) {
    && 0 <= i < |sub.metrics| && !MetricAgrees(h, reg, weights, sub.metrics[i])
    && forall k :: 0 <= k < i ==> MetricAgrees(h, reg, weights, sub.metrics[k])
  }

  /** The `i`th observation is the first of another cell. */
  ghost predicate FirstBadCell(reg: Registration, sub: Submission, i: int) {
    && 0 <= i < |sub.observations| && sub.observations[i].cell != reg.cell
    && forall k :: 0 <= k < i ==> sub.observations[k].cell == reg.cell
  }

  /** What a reject says, reason by reason, and the field it names. */
  ghost predicate ReasonIs(h: Hash, reg: Registration, sub: Submission, weights: Weights, e: Error)
    requires e.Rejected?
  {
    && e.experimentId == reg.experimentId
    && (e.reason == ConflictingRegistration <==> reg.contentFingerprint != Some(sub.contentFingerprint))
    && (e.reason == PostRegistrationMutation <==>
          reg.contentFingerprint == Some(sub.contentFingerprint) && h.registration(reg) != sub.anchoredHash)
    && (e.reason == ConflictingRegistration || e.reason == PostRegistrationMutation ==> e.field == None)
    && (e.reason == MetricMutation <==> Anchored(h, reg, sub) && !MetricsAgree(h, reg, sub, weights))
    && (e.reason == MetricMutation ==>
          exists i :: FirstBadMetric(h, reg, sub, weights, i) && e.field == Some(sub.metrics[i].id))
    && (e.reason == CellMismatch <==>
          Anchored(h, reg, sub) && MetricsAgree(h, reg, sub, weights) && !CellsMatch(reg, sub))
    && (e.reason == CellMismatch ==>
          exists i :: FirstBadCell(reg, sub, i) && e.field == CellDifference(sub.observations[i].cell, reg.cell))
    && (e.reason == Contamination || e.reason == AssetHashConflict <==>
          Anchored(h, reg, sub) && MetricsAgree(h, reg, sub, weights) && CellsMatch(reg, sub))
    && (e.reason == Contamination || e.reason == AssetHashConflict ==>
          ContaminationError(reg, sub.observations, 0) == Some(e))
  }

  method BindExperiment(h: Hash, registration: Option<Registration>, sub: Submission, weights: Weights)
      returns (r: Result<BoundExperiment, Error>)
    ensures r.Ok? <==> registration.Some? && Bindable(h, registration.value, sub, weights)
    ensures r.Ok? <==> registration.Some? && registration.value.tenantId == sub.tenantId
                       && PassesEveryGuard(h, registration.value, sub, weights)
    ensures r.Ok? ==> BindsWhatIsRegistered(registration.value, sub, r.value)
    ensures registration.None? || registration.value.tenantId != sub.tenantId <==> r == Err(NotFound(sub.experimentId))
    ensures r.Err? && r.error.Rejected? ==> registration.Some? && ReasonIs(h, registration.value, sub, weights, r.error)
  {
    hide MetricAgrees, Assigned, AllCompatible, ContaminationError;
    if registration == None || registration.value.tenantId != sub.tenantId {
      return Err(NotFound(sub.experimentId));
    }
    var reg := registration.value;
    if reg.contentFingerprint != Some(sub.contentFingerprint) {
      return Err(Rejected(reg.experimentId, ConflictingRegistration, None));
    }
    if h.registration(reg) != sub.anchoredHash {
      return Err(Rejected(reg.experimentId, PostRegistrationMutation, None));
    }
    var metricError := RejectMetricMutation(h, reg, sub.metrics, weights);
    if metricError != None {
      return Err(metricError.value);
    }
    var cellError := RejectCellMismatch(reg, sub.observations);
    if cellError != None {
      return Err(cellError.value);
    }
    var contamination := RejectContamination(reg, sub.observations);
    ScanIsPairwise(reg, sub.observations);
    if contamination != None {
      ContaminationReasons(reg, sub.observations, 0);
      return Err(contamination.value);
    }
    r := Ok(Bound(reg, sub));
  }

  lemma {:induction false} ContaminationReasons(reg: Registration, obs: seq<Observation>, j: nat)
    requires j <= |obs| && ContaminationError(reg, obs, j).Some?
    ensures var e := ContaminationError(reg, obs, j).value;
            && e.Rejected? && e.experimentId == reg.experimentId
            && (e.reason == Contamination || e.reason == AssetHashConflict)
    decreases |obs| - j
  {
    hide IsMatched, Contested, ClustersUnder;
    if j < |obs| && ObservationError(reg, obs, j).None? { ContaminationReasons(reg, obs, j + 1); }
  }
}
