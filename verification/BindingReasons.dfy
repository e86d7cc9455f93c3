/** Which error a contaminated submission raises: that of its first bad observation, and if none is bad, that of the
    least cluster seen under both roles. */
module BindingReasons {
  import opened Common
  import opened TextOrder
  import opened Binding

  // ----------------------------------------------------------- look-ups

  /** The `i`th arm is the last with this id. */
  ghost predicate LastArm(arms: seq<Arm>, id: string, i: int) {
    0 <= i < |arms| && arms[i].id == id && forall k :: i < k < |arms| ==> arms[k].id != id
  }

  ghost predicate LastMetric(metrics: seq<Metric>, id: string, i: int) {
    0 <= i < |metrics| && metrics[i].id == id && forall k :: i < k < |metrics| ==> metrics[k].id != id
  }

  /** Of arms with one id, the one given last is found, as in a dictionary built from the list. */
  lemma {:induction false} ArmFoundIsTheLast(arms: seq<Arm>, id: string, i: int)
    requires LastArm(arms, id, i)
    ensures ArmById(arms, id) == Some(arms[i])
  {
    if i < |arms| - 1 { ArmFoundIsTheLast(arms[..|arms| - 1], id, i); }
  }

  lemma {:induction false} MetricFoundIsTheLast(metrics: seq<Metric>, id: string, i: int)
    requires LastMetric(metrics, id, i)
    ensures MetricById(metrics, id) == Some(metrics[i])
  {
    if i < |metrics| - 1 { MetricFoundIsTheLast(metrics[..|metrics| - 1], id, i); }
  }

  /** The first weight given for the metric. */
  lemma {:induction false} WeightFoundIsTheFirst(pairs: seq<(string, real)>, id: string, i: nat)
    requires i < |pairs| && pairs[i].0 == id && forall k :: 0 <= k < i ==> pairs[k].0 != id
    ensures WeightFor(pairs, id) == Some(pairs[i].1)
  {
    if i > 0 { WeightFoundIsTheFirst(pairs[1..], id, i - 1); }
  }

  /** A measured metric agrees with the registration exactly when its id is registered, the registered definition has
      the hash it gives, and where weights are enforced, its weight is the registered one. */
  lemma MetricAgreesIff(h: Hash, reg: Registration, weights: Weights, m: MeasuredMetric)
    ensures MetricAgrees(h, reg, weights, m) <==>
              && (exists i :: LastMetric(reg.metrics, m.id, i) && h.metric(reg.metrics[i]) == m.hash)
              && (weights.Enforce? ==> WeightFor(weights.registered, m.id) == Some(m.weight))
  {
    if r :| r in reg.metrics && r.id == m.id {
      var i := LastPlace(reg.metrics, m.id);
      MetricFoundIsTheLast(reg.metrics, m.id, i);
    }
    forall j | LastMetric(reg.metrics, m.id, j)
      ensures MetricById(reg.metrics, m.id) == Some(reg.metrics[j])
    {
      MetricFoundIsTheLast(reg.metrics, m.id, j);
    }
  }

  lemma {:induction false} LastPlace(metrics: seq<Metric>, id: string) returns (i: int)
    requires exists m :: m in metrics && m.id == id
    ensures LastMetric(metrics, id, i)
  {
    var init, last := metrics[..|metrics| - 1], metrics[|metrics| - 1];
    assert metrics == init + [last];
    if last.id == id {
      i := |metrics| - 1;
    } else {
      i := LastPlace(init, id);
      assert metrics[i] == init[i];
    }
  }

  /** The field named for two cells is the first in which they differ. */
  lemma CellDifferenceIs(cell: Cell, registered: Cell)
    ensures var r := CellDifference(cell, registered);
            && (r == Some("locale") <==> cell.locale != registered.locale)
            && (r == Some("browser_policy") <==>
                  cell.locale == registered.locale && cell.browserPolicy != registered.browserPolicy)
            && (r == Some("query_cluster_ref") <==>
                  cell.locale == registered.locale && cell.browserPolicy == registered.browserPolicy
                  && cell.clusterRef != registered.clusterRef)
            && (r == Some("repeat_count") <==>
                  cell.locale == registered.locale && cell.browserPolicy == registered.browserPolicy
                  && cell.clusterRef == registered.clusterRef && cell.repeatCount != registered.repeatCount)
  {}

  // ------------------------------------------------------- one observation

  /** A design of matched clusters: there is an arm that is no baseline, and all such arms are of that role. */
  ghost predicate MatchedDesign(reg: Registration) {
    && (exists a :: a in reg.arms && !a.role.Baseline?)
    && (forall a :: a in reg.arms ==> a.role.Baseline? || a.role.MatchedCluster?)
  }

  predicate KnownArm(reg: Registration, o: Observation) {
    exists a :: a in reg.arms && a.id == o.armId
  }

  ghost predicate FreshId(obs: seq<Observation>, j: int)
    requires 0 <= j < |obs|
  {
    forall i :: 0 <= i < j ==> obs[i].id != obs[j].id
  }

  predicate SameAsset(reg: Registration, o: Observation) {
    o.assetHash.None? || o.assetHash.value == reg.assetHash
  }

  /** In a matched design, the cluster seen is the one registered for the arm, where both are given. */
  ghost predicate OwnCluster(reg: Registration, o: Observation) {
    MatchedDesign(reg) && o.clusterRef.Some? && ArmById(reg.arms, o.armId).Some?
    && ArmById(reg.arms, o.armId).value.clusterRef.Some? ==>
      ArmById(reg.arms, o.armId).value.clusterRef == o.clusterRef
  }

  /** In a matched design, no earlier observation of another arm saw this cluster. */
  ghost predicate Unclaimed(reg: Registration, obs: seq<Observation>, j: int)
    requires 0 <= j < |obs|
  {
    MatchedDesign(reg) && obs[j].clusterRef.Some? ==>
      forall i :: 0 <= i < j && obs[i].clusterRef == obs[j].clusterRef ==> obs[i].armId == obs[j].armId
  }

  ghost predicate Sound(reg: Registration, obs: seq<Observation>, j: int)
    requires 0 <= j < |obs|
  {
    && KnownArm(reg, obs[j]) && FreshId(obs, j) && SameAsset(reg, obs[j]) && OwnCluster(reg, obs[j])
    && Unclaimed(reg, obs, j)
  }

  ghost predicate FirstBad(reg: Registration, obs: seq<Observation>, j: int) {
    0 <= j < |obs| && !Sound(reg, obs, j) && forall i :: 0 <= i < j ==> Sound(reg, obs, i)
  }

  /** What a bad observation is refused for: the first check it fails, naming the arm, the observation or the cluster.
      */
  ghost predicate RefusedFor(reg: Registration, obs: seq<Observation>, j: int, e: Error)
    requires 0 <= j < |obs|
  {
    var o := obs[j];
    && e.Rejected? && e.experimentId == reg.experimentId
    && (e.reason == AssetHashConflict <==> KnownArm(reg, o) && FreshId(obs, j) && !SameAsset(reg, o))
    && (e.reason == Contamination || e.reason == AssetHashConflict)
    && (!KnownArm(reg, o) ==> e.field == Some(o.armId))
    && (KnownArm(reg, o) && !FreshId(obs, j) ==> e.field == Some(o.id))
    && (KnownArm(reg, o) && FreshId(obs, j) && !(SameAsset(reg, o) && OwnCluster(reg, o)) ==> e.field == Some(o.armId))
    && (KnownArm(reg, o) && FreshId(obs, j) && SameAsset(reg, o) && OwnCluster(reg, o) ==> e.field == o.clusterRef)
  }

  lemma ObservationErrorIs(reg: Registration, obs: seq<Observation>, j: int)
    requires 0 <= j < |obs|
    ensures ObservationError(reg, obs, j).None? <==> Sound(reg, obs, j)
    ensures ObservationError(reg, obs, j).Some? ==> RefusedFor(reg, obs, j, ObservationError(reg, obs, j).value)
  {
    SameDesign(reg);
    var o := obs[j];
    assert ArmById(reg.arms, o.armId).Some? <==> KnownArm(reg, o);
    hide IsMatched, MatchedDesign, KnownArm;
  }

  lemma SameDesign(reg: Registration)
    ensures MatchedDesign(reg) <==> IsMatched(reg)
  {}

  // --------------------------------------------------------- all observations

  /** The cluster is seen under treatment and under control, in a design that is not matched. */
  ghost predicate UnderBoth(reg: Registration, obs: seq<Observation>, cluster: string) {
    && !MatchedDesign(reg)
    && (exists o :: o in obs && o.clusterRef == Some(cluster) && ArmById(reg.arms, o.armId).Some?
                    && ArmById(reg.arms, o.armId).value.role.Treatment?)
    && (exists o :: o in obs && o.clusterRef == Some(cluster) && ArmById(reg.arms, o.armId).Some?
                    && ArmById(reg.arms, o.armId).value.role.Control?)
  }

  lemma UnderIs(reg: Registration, obs: seq<Observation>, cluster: string)
    ensures cluster in ClustersUnder(reg, obs, Treatment) * ClustersUnder(reg, obs, Control) <==>
              UnderBoth(reg, obs, cluster)
  {
    SameDesign(reg);
    hide IsMatched, MatchedDesign;
    forall role: Role | role != Baseline
      ensures cluster in ClustersUnder(reg, obs, role) <==>
                !MatchedDesign(reg)
                && exists o :: o in obs && o.clusterRef == Some(cluster) && ArmById(reg.arms, o.armId).Some?
                               && ArmById(reg.arms, o.armId).value.role == role
    {
      if o :| o in obs && o.clusterRef == Some(cluster) && ArmById(reg.arms, o.armId).Some?
              && ArmById(reg.arms, o.armId).value.role == role {
        assert RoleOf(reg, o) == role;
      }
    }
  }

  lemma {:induction false} ErrorOfTheFirst(reg: Registration, obs: seq<Observation>, j: nat, bad: nat)
    requires j <= bad && FirstBad(reg, obs, bad)
    ensures ContaminationError(reg, obs, j) == ObservationError(reg, obs, bad)
    decreases bad - j
  {
    hide ObservationError, Sound;
    ObservationPasses(reg, obs, j);
    ObservationErrorIs(reg, obs, j);
    hide ContaminationError;
    if j < bad { ErrorOfTheFirst(reg, obs, j + 1, bad); }
  }

  lemma {:induction false} ErrorWhenNoneIsBad(reg: Registration, obs: seq<Observation>, j: nat)
    requires j <= |obs| && forall i :: 0 <= i < |obs| ==> Sound(reg, obs, i)
    ensures ContaminationError(reg, obs, j) == ContaminationError(reg, obs, |obs|)
    decreases |obs| - j
  {
    hide ObservationError, Sound;
    if j < |obs| {
      ObservationPasses(reg, obs, j);
      ObservationErrorIs(reg, obs, j);
      hide ContaminationError;
      ErrorWhenNoneIsBad(reg, obs, j + 1);
    }
  }

  lemma {:induction false} SomeIsFirst(reg: Registration, obs: seq<Observation>, n: nat)
    requires n <= |obs| && exists i :: 0 <= i < n && !Sound(reg, obs, i)
    ensures exists j :: FirstBad(reg, obs, j)
  {
    hide Sound;
    if exists i :: 0 <= i < n - 1 && !Sound(reg, obs, i) {
      SomeIsFirst(reg, obs, n - 1);
    } else {
      assert FirstBad(reg, obs, n - 1);
    }
  }

  /** The error of a submission: that of its first bad observation, whichever check it fails; if none is bad, that of
      the least cluster seen under both roles; and none when there is no such cluster. */
  lemma ContaminationErrorIs(reg: Registration, obs: seq<Observation>)
    ensures var e := ContaminationError(reg, obs, 0);
            && (forall j :: FirstBad(reg, obs, j) ==> e.Some? && RefusedFor(reg, obs, j, e.value))
            && (e.Some? <==> (exists j :: FirstBad(reg, obs, j)) || (exists c :: UnderBoth(reg, obs, c)))
            && (e.Some? && !(exists j :: FirstBad(reg, obs, j)) ==>
                  && e.value.Rejected? && e.value.experimentId == reg.experimentId && e.value.reason == Contamination
                  && e.value.field.Some? && UnderBoth(reg, obs, e.value.field.value)
                  && forall c :: UnderBoth(reg, obs, c) ==> Leq(e.value.field.value, c))
  {
    hide ObservationError, Sound, RefusedFor, UnderBoth, Leq;
    var e := ContaminationError(reg, obs, 0);
    forall j | FirstBad(reg, obs, j) ensures e.Some? && RefusedFor(reg, obs, j, e.value) {
      ErrorOfTheFirst(reg, obs, 0, j);
      ObservationErrorIs(reg, obs, j);
    }
    if forall i :: 0 <= i < |obs| ==> Sound(reg, obs, i) {
      ErrorWhenNoneIsBad(reg, obs, 0);
      NoObservationLeft(reg, obs);
      hide ContaminationError, ClustersUnder;
      var overlap := ClustersUnder(reg, obs, Treatment) * ClustersUnder(reg, obs, Control);
      forall c ensures c in overlap <==> UnderBoth(reg, obs, c) { UnderIs(reg, obs, c); }
      if overlap != {} { assert IsLeast(overlap, Least(overlap)); }
    } else {
      SomeIsFirst(reg, obs, |obs|);
    }
  }
}
