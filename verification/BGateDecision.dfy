/** The fields of a decision, each told from the signals, the evidence, the window and the policy themselves. */
module BGateDecision {
  import TextOrder
  import opened AugmentingSearch
  import opened LayerMatching
  import opened ServedLayers
  import opened BGate

  // ------------------------------------------------------------- wire values

  function LayerName(l: Layer): string {
    match l
    case Discovery => "discovery"
    case Citation => "citation"
    case Absorption => "absorption"
    case Prominence => "prominence"
    case Referral => "referral"
  }

  function CodeName(c: ReasonCode): string {
    match c
    case DeploymentLate => "deployment_late"
    case DeploymentUnconfirmed => "deployment_unconfirmed"
    case DuplicateEvidenceBasis => "duplicate_evidence_basis"
    case EvidenceHashMismatch => "evidence_hash_mismatch"
    case InsufficientRepeats => "insufficient_repeats"
    case MissingBaseline => "missing_baseline"
    case MissingControl => "missing_control"
    case MissingRawEvidenceRef => "missing_raw_evidence_ref"
    case NegativeOrInconclusiveLift => "negative_or_inconclusive_lift"
    case NoControlAdjustedLift => "no_control_adjusted_lift"
    case NonFiniteInput => "non_finite_input"
    case ObservationAdapterDrift => "observation_adapter_drift"
    case SingleLayerOnly => "single_layer_only"
    case TreatmentControlContamination => "treatment_control_contamination"
    case WindowIncomplete => "window_incomplete"
  }

  predicate Less(a: string, b: string) {
    a != b && TextOrder.Leq(a, b)
  }

  lemma LessTransitive(a: string, b: string, c: string)
    requires Less(a, b) && Less(b, c)
    ensures Less(a, c)
  {
    TextOrder.LeqTransitive(a, b, c);
    if a == c { TextOrder.LeqAntisymmetric(a, b); }
  }

  /** Strings compare by the first character that differs. */
  lemma {:induction false} LessAt(a: string, b: string, i: nat)
    requires i < |a| && i < |b| && a[..i] == b[..i] && a[i] < b[i]
    ensures Less(a, b)
    decreases i
  {
    if i > 0 {
      assert a[0] == a[..i][0] == b[..i][0] == b[0];
      assert a[1..][..i - 1] == a[..i][1..] && b[1..][..i - 1] == b[..i][1..];
      LessAt(a[1..], b[1..], i - 1);
    }
  }

  ghost predicate Ascending<T>(name: T -> string, items: seq<T>) {
    forall i, j :: 0 <= i < j < |items| ==> Less(name(items[i]), name(items[j]))
  }

  ghost predicate Stepwise<T>(name: T -> string, items: seq<T>) {
    forall i :: 0 <= i < |items| - 1 ==> Less(name(items[i]), name(items[i + 1]))
  }

  lemma {:induction false} StepsAscend<T>(name: T -> string, items: seq<T>, i: nat, j: nat)
    requires Stepwise(name, items) && i < j < |items|
    ensures Less(name(items[i]), name(items[j]))
    decreases j
  {
    hide Less;
    assert Less(name(items[j - 1]), name(items[j - 1 + 1]));
    if i < j - 1 {
      StepsAscend(name, items, i, j - 1);
      LessTransitive(name(items[i]), name(items[j - 1]), name(items[j]));
    }
  }

  lemma {:induction false} SortByAscends<T(!new)>(name: T -> string, order: seq<T>, s: set<T>)
    requires Ascending(name, order)
    ensures Ascending(name, SortBy(order, s))
  {
    hide Less;
    if order != [] {
      var rest := SortBy(order[1..], s);
      SortByAscends(name, order[1..], s);
      forall j | 0 <= j < |rest| ensures Less(name(order[0]), name(rest[j])) {
        assert rest[j] in order[1..];
        var k :| 0 <= k < |order[1..]| && order[1..][k] == rest[j];
        assert order[k + 1] == rest[j];
      }
    }
  }

  lemma LayersAscend()
    ensures Ascending(LayerName, LAYER_ORDER)
  {
    var o := LAYER_ORDER;
    LessAt("absorption", "citation", 0);
    LessAt("citation", "discovery", 0);
    LessAt("discovery", "prominence", 0);
    LessAt("prominence", "referral", 0);
    hide Less;
    assert Stepwise(LayerName, o) by {
      assert o[0] == Absorption && o[1] == Citation && o[2] == Discovery && o[3] == Prominence && o[4] == Referral;
    }
    forall i, j | 0 <= i < j < |o| ensures Less(LayerName(o[i]), LayerName(o[j])) { StepsAscend(LayerName, o, i, j); }
  }

  lemma FirstCodesStep()
    ensures Less("deployment_late", "deployment_unconfirmed")
    ensures Less("deployment_unconfirmed", "duplicate_evidence_basis")
    ensures Less("duplicate_evidence_basis", "evidence_hash_mismatch")
    ensures Less("evidence_hash_mismatch", "insufficient_repeats")
  {
    hide Less;
    LessAt("deployment_late", "deployment_unconfirmed", 11);
    LessAt("deployment_unconfirmed", "duplicate_evidence_basis", 1);
    LessAt("duplicate_evidence_basis", "evidence_hash_mismatch", 0);
    LessAt("evidence_hash_mismatch", "insufficient_repeats", 0);
  }

  lemma MiddleCodesStep()
    ensures Less("insufficient_repeats", "missing_baseline")
    ensures Less("missing_baseline", "missing_control")
    ensures Less("missing_control", "missing_raw_evidence_ref")
    ensures Less("missing_raw_evidence_ref", "negative_or_inconclusive_lift")
    ensures Less("negative_or_inconclusive_lift", "no_control_adjusted_lift")
  {
    hide Less;
    LessAt("insufficient_repeats", "missing_baseline", 0);
    LessAt("missing_baseline", "missing_control", 8);
    LessAt("missing_control", "missing_raw_evidence_ref", 8);
    LessAt("missing_raw_evidence_ref", "negative_or_inconclusive_lift", 0);
    LessAt("negative_or_inconclusive_lift", "no_control_adjusted_lift", 1);
  }

  lemma LastCodesStep()
    ensures Less("no_control_adjusted_lift", "non_finite_input")
    ensures Less("non_finite_input", "observation_adapter_drift")
    ensures Less("observation_adapter_drift", "single_layer_only")
    ensures Less("single_layer_only", "treatment_control_contamination")
    ensures Less("treatment_control_contamination", "window_incomplete")
  {
    hide Less;
    LessAt("no_control_adjusted_lift", "non_finite_input", 2);
    LessAt("non_finite_input", "observation_adapter_drift", 0);
    LessAt("observation_adapter_drift", "single_layer_only", 0);
    LessAt("single_layer_only", "treatment_control_contamination", 0);
    LessAt("treatment_control_contamination", "window_incomplete", 0);
  }

  lemma CodesAscend()
    ensures Ascending(CodeName, CODE_ORDER)
  {
    var o := CODE_ORDER;
    FirstCodesStep();
    MiddleCodesStep();
    LastCodesStep();
    hide Less;
    assert Stepwise(CodeName, o) by {
      assert o[0] == DeploymentLate && o[1] == DeploymentUnconfirmed && o[2] == DuplicateEvidenceBasis
             && o[3] == EvidenceHashMismatch && o[4] == InsufficientRepeats && o[5] == MissingBaseline;
      assert o[6] == MissingControl && o[7] == MissingRawEvidenceRef && o[8] == NegativeOrInconclusiveLift
             && o[9] == NoControlAdjustedLift && o[10] == NonFiniteInput;
      assert o[11] == ObservationAdapterDrift && o[12] == SingleLayerOnly && o[13] == TreatmentControlContamination
             && o[14] == WindowIncomplete;
    }
    forall i, j | 0 <= i < j < |o| ensures Less(CodeName(o[i]), CodeName(o[j])) { StepsAscend(CodeName, o, i, j); }
  }

  /** Every tuple of a decision ascends by wire value, each entry once. */
  lemma TuplesAscend(signals: seq<Signal>, evidence: EvidenceCheck, window: WindowState, policy: Policy)
    ensures var d := DecisionOf(signals, evidence, window, policy);
            && Ascending(CodeName, d.reasonCodes)
            && Ascending(LayerName, d.rawView)
            && Ascending(LayerName, d.controlAdjustedView)
            && Ascending(LayerName, d.qualifyingLayers)
  {
    hide Ascending, LayerName, CodeName, InputCodes, FinalCodes, VerdictOf, RawLayers, AdjustedLayers, QualifyingEdges,
      FinalMatch, CODE_ORDER, LAYER_ORDER;
    LayersAscend();
    CodesAscend();
    var edges := QualifyingEdges(signals);
    var codes := InputCodes(signals, evidence, window);
    SortByAscends(CodeName, CODE_ORDER, FinalCodes(codes, |MaxIndependentLayers(edges)|));
    SortByAscends(LayerName, LAYER_ORDER, RawLayers(signals));
    SortByAscends(LayerName, LAYER_ORDER, AdjustedLayers(signals));
    SortByAscends(LayerName, LAYER_ORDER, FinalMatch(edges).Values);
  }

  // ------------------------------------------------------------------- views

  /** All three numbers of a signal are finite. */
  predicate AllFinite(s: Signal) {
    s.treatmentRawDelta.Finite? && s.controlRawDelta.Finite? && s.netOfControlLift.Finite?
  }

  /** The raw view holds the layers whose treatment moved up; the control-adjusted view those with a positive lift over
      control. A layer that moved in both arms alike is in the first and not in the second. */
  lemma ViewsAre(signals: seq<Signal>, evidence: EvidenceCheck, window: WindowState, policy: Policy, l: Layer)
    ensures var d := DecisionOf(signals, evidence, window, policy);
            && (l in d.rawView <==>
                  exists s :: s in signals && s.layer == l && AllFinite(s) && s.treatmentRawDelta.value > 0.0)
            && (l in d.controlAdjustedView <==>
                  exists s :: s in signals && s.layer == l && AllFinite(s) && s.hasControlAdjustedLift
                              && s.netOfControlLift.value > 0.0)
            && ((forall s :: s in signals && s.layer == l && AllFinite(s) && s.hasControlAdjustedLift ==>
                               s.netOfControlLift.value <= 0.0) ==>
                  l !in d.controlAdjustedView && l !in d.qualifyingLayers)
  {
    QualifyingLayersAreAdjusted(signals, evidence, window, policy);
    hide InputCodes, FinalCodes, VerdictOf, QualifyingEdges, MaxIndependentLayers;
  }

  /** The signal counts towards a verdict. */
  predicate Counts(s: Signal) {
    && AllFinite(s) && s.hasControlAdjustedLift && s.netOfControlLift.value > 0.0
    && s.sufficientData && s.hasRawEvidenceRef
  }

  /** Layer and basis are those of a signal that counts. */
  ghost predicate EdgesOf(signals: seq<Signal>, edges: set<Edge>) {
    forall e: Edge :: e in edges <==> exists s :: s in signals && Counts(s) && s.layer == e.0 && s.basis == e.1
  }

  /** Whatever the verdict, the qualifying layers are those that, one after the other, can be given an evidence basis of
      their own next to the layers before them; and no more layers could be. */
  lemma QualifyingLayersAre(signals: seq<Signal>, evidence: EvidenceCheck, window: WindowState, policy: Policy,
                            edges: set<Edge>, l: Layer)
    requires EdgesOf(signals, edges)
    ensures var d := DecisionOf(signals, evidence, window, policy);
            && (l in d.qualifyingLayers <==> Helps(edges, Before(l), l))
            && (forall m :: IsMatching(edges, m) ==> |m.Keys| <= |d.qualifyingLayers|)
  {
    assert edges == QualifyingEdges(signals) by {
      forall e: Edge ensures e in edges <==> e in QualifyingEdges(signals) {
        if e in QualifyingEdges(signals) {
          var s :| s in signals && Qualifies(s) && (s.layer, s.basis) == e;
          assert Counts(s);
        }
        if s :| s in signals && Counts(s) && s.layer == e.0 && s.basis == e.1 { assert Qualifies(s); }
      }
    }
    ServedIffItHelps(edges, l);
    FinalMatchIsMaximum(edges);
    hide InputCodes, FinalCodes, VerdictOf, QualifyingEdges, MaxIndependentLayers, RawLayers, AdjustedLayers, Helps,
      IsMatching, EdgesOf;
  }

  /** The confidence tells PASS from the rest, and the policy is passed on with whether it is a production one. */
  lemma ConfidenceAndPolicy(signals: seq<Signal>, evidence: EvidenceCheck, window: WindowState, policy: Policy)
    ensures var d := DecisionOf(signals, evidence, window, policy);
            && (d.confidence == 1.0 <==> d.verdict == Pass)
            && (d.confidence == 0.0 <==> d.verdict != Pass)
            && d.policy == policy
            && (d.isProduction <==> policy.provenance.Production?)
  {
    hide InputCodes, FinalCodes, VerdictOf, QualifyingEdges, MaxIndependentLayers, RawLayers, AdjustedLayers;
  }

  /** PASS, told from the fields of the inputs: everything is sound, and two signals with a positive control-adjusted
      lift differ in layer and in evidence basis. */
  lemma PassInFull(signals: seq<Signal>, evidence: EvidenceCheck, window: WindowState, policy: Policy)
    ensures DecisionOf(signals, evidence, window, policy).verdict == Pass <==>
              && evidence.manifestHashOk && evidence.rawRefsPresent
              && window.complete && window.deploymentConfirmed && !window.deploymentLate && !window.contamination
              && !window.adapterDrift && !window.missingBaseline && !window.missingControl
              && !window.insufficientRepeats
              && (forall s :: s in signals ==> AllFinite(s) && s.sufficientData && s.hasRawEvidenceRef)
              && exists s, t :: s in signals && t in signals && s.layer != t.layer && s.basis != t.basis
                                && s.hasControlAdjustedLift && s.netOfControlLift.value > 0.0
                                && t.hasControlAdjustedLift && t.netOfControlLift.value > 0.0
  {
    PassIffTwoIndependentSignals(signals, evidence, window, policy);
    hide DecisionOf;
  }

  // ------------------------------------------------------------ reason codes

  /** When each reason code is recorded. */
  predicate ContextHas(c: ReasonCode, evidence: EvidenceCheck, window: WindowState) {
    || (c.EvidenceHashMismatch? && !evidence.manifestHashOk)
    || (c.MissingRawEvidenceRef? && !evidence.rawRefsPresent)
    || (c.WindowIncomplete? && !window.complete)
    || (c.DeploymentUnconfirmed? && !window.deploymentConfirmed)
    || (c.DeploymentLate? && window.deploymentLate)
    || (c.TreatmentControlContamination? && window.contamination)
    || (c.ObservationAdapterDrift? && window.adapterDrift)
    || (c.MissingBaseline? && window.missingBaseline)
    || (c.MissingControl? && window.missingControl)
    || (c.InsufficientRepeats? && window.insufficientRepeats)
  }

  predicate SignalHas(c: ReasonCode, s: Signal) {
    if !AllFinite(s) then c.NonFiniteInput?
    else
      || (c.InsufficientRepeats? && !s.sufficientData)
      || (c.MissingRawEvidenceRef? && !s.hasRawEvidenceRef)
      || (c.NoControlAdjustedLift? && !s.hasControlAdjustedLift)
      || (c.NegativeOrInconclusiveLift? && s.hasControlAdjustedLift && s.netOfControlLift.value <= 0.0)
  }

  ghost predicate TwoShareABasis(signals: seq<Signal>) {
    exists i, j :: 0 <= i < j < |signals| && AllFinite(signals[i]) && AllFinite(signals[j])
                   && signals[i].basis == signals[j].basis
  }

  lemma SameMeaning(signals: seq<Signal>, evidence: EvidenceCheck, window: WindowState, c: ReasonCode)
    ensures ContextHas(c, evidence, window) <==> ContextCode(c, evidence, window)
    ensures forall s :: SignalHas(c, s) <==> OwnCode(c, s)
    ensures TwoShareABasis(signals) <==> SharesBasis(signals)
  {}

  /** Each code of a decision is there for its reason, and for each reason there is its code. */
  lemma DecisionCodesAre(signals: seq<Signal>, evidence: EvidenceCheck, window: WindowState, policy: Policy,
                         c: ReasonCode)
    ensures var d := DecisionOf(signals, evidence, window, policy);
            && (c != SingleLayerOnly ==>
                  (c in d.reasonCodes <==>
                     || ContextHas(c, evidence, window)
                     || (exists s :: s in signals && SignalHas(c, s))
                     || (c == DuplicateEvidenceBasis && TwoShareABasis(signals))))
            && (SingleLayerOnly in d.reasonCodes <==>
                  d.verdict == Fail
                  && (|d.qualifyingLayers| == 1
                      || (d.qualifyingLayers == []
                          && forall other :: other in d.reasonCodes ==> other == SingleLayerOnly)))
  {
    var codes := InputCodes(signals, evidence, window);
    EveryCodeIsOrdered();
    InputCodesMeaning(signals, evidence, window);
    SameMeaning(signals, evidence, window, c);
    hide InputCodes, MaxIndependentLayers, QualifyingEdges, CODE_ORDER, ContextCode, ContextHas, SignalHas, OwnCode,
      SharesBasis, TwoShareABasis, RawLayers, AdjustedLayers;
    NoSingleLayerYet(signals, evidence, window);
    CodeOfTheBatch(signals, c);
    hide SignalCode;
  }

  lemma CodeOfTheBatch(signals: seq<Signal>, c: ReasonCode)
    ensures SignalCode(c, signals) <==>
              (c == DuplicateEvidenceBasis && TwoShareABasis(signals))
              || exists s :: s in signals && SignalHas(c, s)
  {
    var window := WindowState(true, true, false, false, false, false, false, false);
    SameMeaning(signals, EvidenceCheck(true, true), window, c);
    hide OwnCode, SignalHas, SharesBasis, TwoShareABasis;
    if s :| s in signals && OwnCode(c, s) { assert SignalHas(c, s); }
    if s :| s in signals && SignalHas(c, s) { assert OwnCode(c, s); }
  }

  lemma NoSingleLayerYet(signals: seq<Signal>, evidence: EvidenceCheck, window: WindowState)
    ensures !SignalCode(SingleLayerOnly, signals) && !ContextCode(SingleLayerOnly, evidence, window)
  {}
}
