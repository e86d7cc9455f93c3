/** Acceptance of a measurement submission does not depend on order, and survives dropping observations and metrics. */
module BindingLaws {
  import opened Common
  import opened Binding

  /** The same requirement, said of the observations as a multiset. */
  ghost predicate PairwiseIn(reg: Registration, m: multiset<Observation>) {
    && (forall o :: o in m ==> m[o] == 1)
    && forall o, p :: o in m && p in m && o != p ==> Compatible(reg, o, p)
  }

  lemma {:induction false} OnceIfDistinct(obs: seq<Observation>, o: Observation)
    requires forall i, j :: 0 <= i < j < |obs| ==> obs[i] != obs[j]
    ensures multiset(obs)[o] <= 1
  {
    if obs != [] {
      var init, last := obs[..|obs| - 1], obs[|obs| - 1];
      OnceIfDistinct(init, o);
      assert obs == init + [last];
      assert forall i :: 0 <= i < |init| ==> init[i] == obs[i] && init[i] != last;
    }
  }

  lemma TwiceIfRepeated(obs: seq<Observation>, i: nat, j: nat)
    requires i < j < |obs| && obs[i] == obs[j]
    ensures multiset(obs)[obs[i]] >= 2
  {
    assert obs == obs[..j] + [obs[j]] + obs[j + 1..];
    assert obs[..j][i] == obs[i];
    assert obs[i] in obs[..j];
  }

  lemma CompatibleBothWays(reg: Registration, o: Observation, p: Observation)
    requires Compatible(reg, o, p)
    ensures Compatible(reg, p, o) && o != p
  {
    hide IsMatched, RoleOf;
  }

  lemma PairsAsMultiset(reg: Registration, obs: seq<Observation>)
    ensures AllCompatible(reg, obs) <==> PairwiseIn(reg, multiset(obs))
  {
    hide Compatible;
    if AllCompatible(reg, obs) {
      forall i, j | 0 <= i < |obs| && 0 <= j < |obs| && i != j
        ensures Compatible(reg, obs[i], obs[j]) && obs[i] != obs[j]
      {
        if i < j { CompatibleBothWays(reg, obs[i], obs[j]); } else { CompatibleBothWays(reg, obs[j], obs[i]); }
      }
      forall o | o in multiset(obs)
        ensures multiset(obs)[o] == 1
      {
        OnceIfDistinct(obs, o);
      }
      forall o, p | o in multiset(obs) && p in multiset(obs) && o != p
        ensures Compatible(reg, o, p)
      {
        var i :| 0 <= i < |obs| && obs[i] == o;
        var j :| 0 <= j < |obs| && obs[j] == p;
        assert Compatible(reg, obs[i], obs[j]);
      }
    } else if PairwiseIn(reg, multiset(obs)) {
      forall i, j | 0 <= i < j < |obs|
        ensures Compatible(reg, obs[i], obs[j])
      {
        assert obs[i] in multiset(obs) && obs[j] in multiset(obs);
        if obs[i] == obs[j] { TwiceIfRepeated(obs, i, j); }
      }
    }
  }

  /** Dropping observations or metrics from an accepted submission, and putting the rest in any order, leaves it
      accepted. */
  lemma DroppingKeepsItBindable(h: Hash, reg: Registration, sub: Submission, weights: Weights, less: Submission)
    requires Bindable(h, reg, sub, weights)
    requires less.tenantId == sub.tenantId && less.contentFingerprint == sub.contentFingerprint
             && less.anchoredHash == sub.anchoredHash
    requires multiset(less.metrics) <= multiset(sub.metrics)
             && multiset(less.observations) <= multiset(sub.observations)
    ensures Bindable(h, reg, less, weights)
  {
    hide AllCompatible, Compatible, Assigned, MetricAgrees;
    forall m | m in less.metrics
      ensures m in sub.metrics
    {
      assert m in multiset(less.metrics);
    }
    forall o | o in less.observations
      ensures o in sub.observations
    {
      assert o in multiset(less.observations);
    }
    PairsAsMultiset(reg, sub.observations);
    PairsAsMultiset(reg, less.observations);
  }

  /** Acceptance is the same for every order of the metrics and the observations. */
  lemma OrderDoesNotDecide(h: Hash, reg: Registration, sub: Submission, weights: Weights, metrics: seq<MeasuredMetric>,
                           observations: seq<Observation>)
    requires multiset(metrics) == multiset(sub.metrics) && multiset(observations) == multiset(sub.observations)
    ensures Bindable(h, reg, sub.(metrics := metrics, observations := observations), weights) <==>
              Bindable(h, reg, sub, weights)
  {
    hide Bindable;
    var other := sub.(metrics := metrics, observations := observations);
    if Bindable(h, reg, sub, weights) {
      DroppingKeepsItBindable(h, reg, sub, weights, other);
    } else if Bindable(h, reg, other, weights) {
      DroppingKeepsItBindable(h, reg, other, weights, sub);
    }
  }

  /** The reason given does depend on the order: of two bad observations, the first one names it. */
  lemma OrderDecidesTheReason(reg: Registration, stranger: Observation, forged: Observation)
    requires ArmById(reg.arms, stranger.armId).None?
    requires ArmById(reg.arms, forged.armId).Some? && forged.id != stranger.id
    requires forged.assetHash.Some? && forged.assetHash.value != reg.assetHash
    ensures ContaminationError(reg, [stranger, forged], 0)
            == Some(Rejected(reg.experimentId, Contamination, Some(stranger.armId)))
    ensures ContaminationError(reg, [forged, stranger], 0)
            == Some(Rejected(reg.experimentId, AssetHashConflict, Some(forged.armId)))
  {
    hide IsMatched, ClustersUnder;
    ObservationPasses(reg, [stranger, forged], 0);
    ObservationPasses(reg, [forged, stranger], 0);
  }
}
