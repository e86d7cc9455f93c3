/** The B-layer success gate: from per-signal results to PASS, FAIL or UNDETERMINED. */
module BGate {
  import opened AugmentingSearch
  import opened KuhnMatcher
  import opened LayerMatching

  // ------------------------------------------------------------------ data

  /** A float as the gate sees it: an exact value, or one of the values `math.isfinite` refuses. */
  datatype Number = Finite(value: real) | PosInf | NegInf | NaN {
    predicate Positive() {
      PosInf? || (Finite? && value > 0.0)
    }
  }

  datatype Signal = Signal(
    layer: Layer,
    basis: string,
    treatmentRawDelta: Number,
    controlRawDelta: Number,
    netOfControlLift: Number,
    hasControlAdjustedLift: bool,
    sufficientData: bool,
    hasRawEvidenceRef: bool)

  datatype EvidenceCheck = EvidenceCheck(manifestHashOk: bool, rawRefsPresent: bool)

  datatype WindowState = WindowState(
    complete: bool,
    deploymentConfirmed: bool,
    deploymentLate: bool,
    contamination: bool,
    adapterDrift: bool,
    missingBaseline: bool,
    missingControl: bool,
    insufficientRepeats: bool)

  datatype Provenance = Production | TestFixture
  datatype Policy = Policy(version: string, hash: string, provenance: Provenance)

  datatype Verdict = Pass | Fail | Undetermined

  datatype ReasonCode =
    | DeploymentLate | DeploymentUnconfirmed | DuplicateEvidenceBasis | EvidenceHashMismatch
    | InsufficientRepeats | MissingBaseline | MissingControl | MissingRawEvidenceRef
    | NegativeOrInconclusiveLift | NoControlAdjustedLift | NonFiniteInput | ObservationAdapterDrift
    | SingleLayerOnly | TreatmentControlContamination | WindowIncomplete

  /** The codes in the order of their wire values. */
  const CODE_ORDER: seq<ReasonCode> := [
    DeploymentLate, DeploymentUnconfirmed, DuplicateEvidenceBasis, EvidenceHashMismatch,
    InsufficientRepeats, MissingBaseline, MissingControl, MissingRawEvidenceRef,
    NegativeOrInconclusiveLift, NoControlAdjustedLift, NonFiniteInput, ObservationAdapterDrift,
    SingleLayerOnly, TreatmentControlContamination, WindowIncomplete]

  /** The codes of an insufficient or broken input: all but those that only describe the effect found. */
  predicate Undetermines(c: ReasonCode) {
    !c.DuplicateEvidenceBasis? && !c.NegativeOrInconclusiveLift? && !c.NoControlAdjustedLift? && !c.SingleLayerOnly?
  }

  predicate AnyUndetermines(codes: set<ReasonCode>) {
    exists c :: c in codes && Undetermines(c)
  }

  const MIN_INDEPENDENT_LAYERS := 2

  datatype Decision = Decision(
    verdict: Verdict,
    reasonCodes: seq<ReasonCode>,
    rawView: seq<Layer>,
    controlAdjustedView: seq<Layer>,
    qualifyingLayers: seq<Layer>,
    confidence: real,
    policy: Policy,
    isProduction: bool)

  // ------------------------------------------------- what a signal shows

  predicate IsFinite(s: Signal) {
    s.treatmentRawDelta.Finite? && s.controlRawDelta.Finite? && s.netOfControlLift.Finite?
  }

  predicate MovedRaw(s: Signal) {
    IsFinite(s) && s.treatmentRawDelta.Positive()
  }

  predicate Adjusted(s: Signal) {
    IsFinite(s) && s.hasControlAdjustedLift && s.netOfControlLift.Positive()
  }

  predicate Qualifies(s: Signal) {
    Adjusted(s) && s.sufficientData && s.hasRawEvidenceRef
  }

  // ---------------------------------------------- the decision, declared

  ghost function RawLayers(signals: seq<Signal>): set<Layer> {
    set s | s in signals && MovedRaw(s) :: s.layer
  }

  ghost function AdjustedLayers(signals: seq<Signal>): set<Layer> {
    set s | s in signals && Adjusted(s) :: s.layer
  }

  ghost function QualifyingEdges(signals: seq<Signal>): set<Edge> {
    set s | s in signals && Qualifies(s) :: (s.layer, s.basis)
  }

  ghost function FiniteBases(signals: seq<Signal>): set<string> {
    set s | s in signals && IsFinite(s) :: s.basis
  }

  /** Two finite results share an evidence basis. */
  ghost predicate SharesBasis(signals: seq<Signal>) {
    exists i, j :: 0 <= i < j < |signals| && IsFinite(signals[i]) && IsFinite(signals[j])
        && signals[i].basis == signals[j].basis
  }

  ghost function SignalCodes(signals: seq<Signal>): set<ReasonCode> {
    if signals == [] then {} else
      var earlier, last := signals[..|signals| - 1], signals[|signals| - 1];
      SignalCodes(earlier) + set c: ReasonCode | Earned(c, last, FiniteBases(earlier))
  }

  /** What each code says of one signal on its own. */
  predicate OwnCode(c: ReasonCode, s: Signal) {
    match c
    case NonFiniteInput => !IsFinite(s)
    case InsufficientRepeats => IsFinite(s) && !s.sufficientData
    case MissingRawEvidenceRef => IsFinite(s) && !s.hasRawEvidenceRef
    case NoControlAdjustedLift => IsFinite(s) && !s.hasControlAdjustedLift
    case NegativeOrInconclusiveLift => IsFinite(s) && s.hasControlAdjustedLift && !s.netOfControlLift.Positive()
    case _ => false
  }

  /** The code is due for a signal that comes after signals with the bases `seen`. */
  predicate Earned(c: ReasonCode, s: Signal, seen: set<string>) {
    OwnCode(c, s) || (c == DuplicateEvidenceBasis && IsFinite(s) && s.basis in seen)
  }

  /** What each code says of the whole batch. */
  ghost predicate SignalCode(c: ReasonCode, signals: seq<Signal>) {
    || (c == DuplicateEvidenceBasis && SharesBasis(signals))
    || exists s :: s in signals && OwnCode(c, s)
  }

  /** What each code says of the evidence bundle and the measurement window. */
  predicate ContextCode(c: ReasonCode, evidence: EvidenceCheck, window: WindowState) {
    match c
    case EvidenceHashMismatch => !evidence.manifestHashOk
    case MissingRawEvidenceRef => !evidence.rawRefsPresent
    case WindowIncomplete => !window.complete
    case DeploymentUnconfirmed => !window.deploymentConfirmed
    case DeploymentLate => window.deploymentLate
    case TreatmentControlContamination => window.contamination
    case ObservationAdapterDrift => window.adapterDrift
    case MissingBaseline => window.missingBaseline
    case MissingControl => window.missingControl
    case InsufficientRepeats => window.insufficientRepeats
    case _ => false
  }

  ghost function InputCodes(signals: seq<Signal>, evidence: EvidenceCheck, window: WindowState): set<ReasonCode> {
    set c: ReasonCode | c in SignalCodes(signals) || ContextCode(c, evidence, window)
  }

  /** The evidence bundle or the measurement window is insufficient or broken. */
  predicate ContextBroken(evidence: EvidenceCheck, window: WindowState) {
    || !evidence.manifestHashOk || !evidence.rawRefsPresent
    || !window.complete || !window.deploymentConfirmed || window.deploymentLate || window.contamination
    || window.adapterDrift || window.missingBaseline || window.missingControl || window.insufficientRepeats
  }

  /** Some required input is insufficient or broken. */
  ghost predicate FailClosed(signals: seq<Signal>, evidence: EvidenceCheck, window: WindowState) {
    || ContextBroken(evidence, window)
    || exists s :: s in signals && (!IsFinite(s) || !s.sufficientData || !s.hasRawEvidenceRef)
  }

  function VerdictOf(codes: set<ReasonCode>, independent: nat): Verdict {
    if AnyUndetermines(codes) then Undetermined
    else if independent >= MIN_INDEPENDENT_LAYERS then Pass
    else Fail
  }

  function FinalCodes(codes: set<ReasonCode>, independent: nat): set<ReasonCode> {
    if !AnyUndetermines(codes) && (independent == 1 || (independent == 0 && codes == {}))
    then codes + {SingleLayerOnly}
    else codes
  }

  ghost function DecisionOf(signals: seq<Signal>, evidence: EvidenceCheck, window: WindowState,
                            policy: Policy): Decision {
    var codes := InputCodes(signals, evidence, window);
    var layers := MaxIndependentLayers(QualifyingEdges(signals));
    var verdict := VerdictOf(codes, |layers|);
    Decision(
      verdict,
      SortBy(CODE_ORDER, FinalCodes(codes, |layers|)),
      SortLayers(RawLayers(signals)),
      SortLayers(AdjustedLayers(signals)),
      layers,
      if verdict == Pass then 1.0 else 0.0,
      policy,
      policy.provenance == Production)
  }

  // --------------------------------------------------------------- program

  method DecideBVerdict(signals: seq<Signal>, evidence: EvidenceCheck, window: WindowState, policy: Policy)
    returns (decision: Decision)
    ensures decision == DecisionOf(signals, evidence, window, policy)
  {
    hide SignalCodes, RawLayers, AdjustedLayers, QualifyingEdges, MaxIndependentLayers, ContextCode, DesignCode,
        Undetermines;
    var codes, rawLayers, qualifyingEdges, adjustedLayers := ClassifySignals(signals);
    var layers := FindMaxIndependentLayers(qualifyingEdges);
    var rawView, adjustedView := SortLayers(rawLayers), SortLayers(adjustedLayers);
    codes := CheckEvidenceAndDeployment(codes, evidence, window);
    codes := CheckDesign(codes, evidence, window);
    assert codes == InputCodes(signals, evidence, window);
    hide InputCodes, AnyUndetermines;
    var verdict, confidence := Undetermined, 0.0;
    if !AnyUndetermines(codes) {
      if |layers| >= MIN_INDEPENDENT_LAYERS {
        verdict, confidence := Pass, 1.0;
      } else {
        verdict := Fail;
        if |layers| == 1 {
          codes := codes + {SingleLayerOnly};
        } else if codes == {} {
          codes := codes + {SingleLayerOnly};
        }
      }
    }
    decision := Decision(verdict, SortBy(CODE_ORDER, codes), rawView, adjustedView, layers, confidence,
                         policy, policy.provenance == Production);
  }

  predicate DesignCode(c: ReasonCode) {
    c.TreatmentControlContamination? || c.ObservationAdapterDrift? || c.MissingBaseline? || c.MissingControl?
        || c.InsufficientRepeats?
  }

  method CheckEvidenceAndDeployment(before: set<ReasonCode>, evidence: EvidenceCheck, window: WindowState)
      returns (codes: set<ReasonCode>)
    ensures forall c :: c in codes <==> c in before || (!DesignCode(c) && ContextCode(c, evidence, window))
  {
    codes := before;
    if !evidence.manifestHashOk { codes := codes + {EvidenceHashMismatch}; }
    if !evidence.rawRefsPresent { codes := codes + {MissingRawEvidenceRef}; }
    if !window.complete { codes := codes + {WindowIncomplete}; }
    if !window.deploymentConfirmed { codes := codes + {DeploymentUnconfirmed}; }
    if window.deploymentLate { codes := codes + {DeploymentLate}; }
  }

  method CheckDesign(before: set<ReasonCode>, evidence: EvidenceCheck, window: WindowState)
      returns (codes: set<ReasonCode>)
    ensures forall c :: c in codes <==> c in before || (DesignCode(c) && ContextCode(c, evidence, window))
  {
    codes := before;
    if window.contamination { codes := codes + {TreatmentControlContamination}; }
    if window.adapterDrift { codes := codes + {ObservationAdapterDrift}; }
    if window.missingBaseline { codes := codes + {MissingBaseline}; }
    if window.missingControl { codes := codes + {MissingControl}; }
    if window.insufficientRepeats { codes := codes + {InsufficientRepeats}; }
  }

  /** The loop over the per-signal results. */
  method ClassifySignals(signals: seq<Signal>)
    returns (codes: set<ReasonCode>, rawLayers: set<Layer>, edges: set<Edge>, adjustedLayers: set<Layer>)
    ensures codes == SignalCodes(signals)
    ensures rawLayers == RawLayers(signals)
    ensures adjustedLayers == AdjustedLayers(signals)
    ensures edges == QualifyingEdges(signals)
  {
    codes, rawLayers, edges, adjustedLayers := {}, {}, {}, {};
    var seenBasis := {};
    for i := 0 to |signals|
      invariant codes == SignalCodes(signals[..i])
      invariant rawLayers == RawLayers(signals[..i])
      invariant adjustedLayers == AdjustedLayers(signals[..i])
      invariant edges == QualifyingEdges(signals[..i])
      invariant seenBasis == FiniteBases(signals[..i])
    {
      var signal := signals[i];
      assert signals[..i + 1] == signals[..i] + [signal];
      OneMoreSignal(signals[..i], signal);
      codes := RecordCodes(codes, seenBasis, signal);
      if !IsFinite(signal) {
        continue;
      }
      if signal.treatmentRawDelta.Positive() {
        rawLayers := rawLayers + {signal.layer};
      }
      seenBasis := seenBasis + {signal.basis};
      if !signal.hasControlAdjustedLift {
        continue;
      }
      if !signal.netOfControlLift.Positive() {
        continue;
      }
      adjustedLayers := adjustedLayers + {signal.layer};
      if !signal.sufficientData || !signal.hasRawEvidenceRef {
        continue;
      }
      edges := edges + {(signal.layer, signal.basis)};
    }
    assert signals[..|signals|] == signals;
  }

  /** The reason codes one turn of that loop adds: exactly those the signal earns. */
  method RecordCodes(before: set<ReasonCode>, seenBasis: set<string>, signal: Signal) returns (codes: set<ReasonCode>)
    ensures forall c :: c in codes <==> c in before || Earned(c, signal, seenBasis)
  {
    codes := before;
    if !IsFinite(signal) {
      codes := codes + {NonFiniteInput};
      return;
    }
    if signal.basis in seenBasis {
      codes := codes + {DuplicateEvidenceBasis};
    }
    if !signal.sufficientData {
      codes := codes + {InsufficientRepeats};
    }
    if !signal.hasRawEvidenceRef {
      codes := codes + {MissingRawEvidenceRef};
    }
    if !signal.hasControlAdjustedLift {
      codes := codes + {NoControlAdjustedLift};
      return;
    }
    if !signal.netOfControlLift.Positive() {
      codes := codes + {NegativeOrInconclusiveLift};
    }
  }

  /** How each view changes when one signal is added at the end. */
  lemma OneMoreSignal(signals: seq<Signal>, s: Signal)
    ensures RawLayers(signals + [s]) == RawLayers(signals) + (if MovedRaw(s) then {s.layer} else {})
    ensures AdjustedLayers(signals + [s]) == AdjustedLayers(signals) + (if Adjusted(s) then {s.layer} else {})
    ensures QualifyingEdges(signals + [s]) == QualifyingEdges(signals)
            + (if Qualifies(s) then {(s.layer, s.basis)} else {})
    ensures FiniteBases(signals + [s]) == FiniteBases(signals) + (if IsFinite(s) then {s.basis} else {})
  {
    assert forall t :: t in signals + [s] <==> t in signals || t == s;
  }

  /** The codes the loop collects are exactly those the batch deserves. */
  lemma {:induction false} SignalCodesMeaning(signals: seq<Signal>, c: ReasonCode)
    ensures c in SignalCodes(signals) <==> SignalCode(c, signals)
  {
    hide OwnCode, SharesBasis, FiniteBases, IsFinite;
    if signals == [] {
      NothingShared();
    } else {
      var earlier, last := signals[..|signals| - 1], signals[|signals| - 1];
      assert signals == earlier + [last];
      SignalCodesMeaning(earlier, c);
      OneMoreSharesBasis(earlier, last);
      if s :| s in earlier && OwnCode(c, s) {
        assert s in signals;
      }
    }
  }

  lemma InputCodesMeaning(signals: seq<Signal>, evidence: EvidenceCheck, window: WindowState)
    ensures forall c :: c in InputCodes(signals, evidence, window) <==>
              SignalCode(c, signals) || ContextCode(c, evidence, window)
  {
    forall c ensures c in InputCodes(signals, evidence, window) <==>
          SignalCode(c, signals) || ContextCode(c, evidence, window) {
      SignalCodesMeaning(signals, c);
    }
  }

  lemma NothingShared()
    ensures !SharesBasis([])
  {}

  lemma OneMoreSharesBasis(signals: seq<Signal>, s: Signal)
    ensures SharesBasis(signals + [s]) <==> SharesBasis(signals) || (IsFinite(s) && s.basis in FiniteBases(signals))
  {
    var longer := signals + [s];
    if SharesBasis(signals) {
      var i, j :| 0 <= i < j < |signals| && IsFinite(signals[i]) && IsFinite(signals[j])
          && signals[i].basis == signals[j].basis;
      assert longer[i] == signals[i] && longer[j] == signals[j];
    }
    if IsFinite(s) && s.basis in FiniteBases(signals) {
      var t :| t in signals && IsFinite(t) && t.basis == s.basis;
      var i :| 0 <= i < |signals| && signals[i] == t;
      assert longer[i] == t && longer[|signals|] == s;
    }
    if SharesBasis(longer) {
      var i, j :| 0 <= i < j < |longer| && IsFinite(longer[i]) && IsFinite(longer[j])
          && longer[i].basis == longer[j].basis;
      assert longer[i] == signals[i];
      if j < |signals| {
        assert longer[j] == signals[j];
      }
    }
  }

  // ------------------------------------------------------------ properties

  /** The gate's rule: PASS exactly when nothing is insufficient and two qualifying signals
      have different layers and different evidence bases. */
  lemma PassIffTwoIndependentSignals(signals: seq<Signal>, evidence: EvidenceCheck, window: WindowState, policy: Policy)
    ensures DecisionOf(signals, evidence, window, policy).verdict == Pass <==>
              && !FailClosed(signals, evidence, window)
              && exists s, t ::
                   s in signals && t in signals && Qualifies(s) && Qualifies(t)
                   && s.layer != t.layer && s.basis != t.basis
  {
    var edges := QualifyingEdges(signals);
    UndeterminedIffFailClosed(signals, evidence, window, policy);
    TwoIndependentEdges(edges);
    if s, t :|
      s in signals && t in signals && Qualifies(s) && Qualifies(t)
      && s.layer != t.layer && s.basis != t.basis
    {
      assert (s.layer, s.basis) in edges && (t.layer, t.basis) in edges;
    }
    if e, f :| e in edges && f in edges && e.0 != f.0 && e.1 != f.1 {
      var s :| s in signals && Qualifies(s) && (s.layer, s.basis) == e;
      var t :| t in signals && Qualifies(t) && (t.layer, t.basis) == f;
    }
  }

  lemma UndeterminedIffFailClosed(signals: seq<Signal>, evidence: EvidenceCheck, window: WindowState, policy: Policy)
    ensures DecisionOf(signals, evidence, window, policy).verdict == Undetermined <==>
              FailClosed(signals, evidence, window)
  {
    var codes := InputCodes(signals, evidence, window);
    InputCodesMeaning(signals, evidence, window);
    if s :| s in signals && (!IsFinite(s) || !s.sufficientData || !s.hasRawEvidenceRef) {
      var c := if !IsFinite(s) then NonFiniteInput else if !s.sufficientData then InsufficientRepeats
          else MissingRawEvidenceRef;
      assert OwnCode(c, s) && Undetermines(c);
      assert c in codes;
    } else if ContextBroken(evidence, window) {
      var c := BrokenContextCode(evidence, window);
      assert c in codes && Undetermines(c);
    } else if AnyUndetermines(codes) {
      var c :| c in codes && Undetermines(c);
      if s :| s in signals && OwnCode(c, s) {
      } else {
        assert ContextCode(c, evidence, window);
      }
    }
  }

  lemma BrokenContextCode(evidence: EvidenceCheck, window: WindowState) returns (c: ReasonCode)
    requires ContextBroken(evidence, window)
    ensures ContextCode(c, evidence, window) && Undetermines(c)
  {
    c :=
      if !evidence.manifestHashOk then EvidenceHashMismatch else if !evidence.rawRefsPresent then MissingRawEvidenceRef
      else if !window.complete then WindowIncomplete else if !window.deploymentConfirmed then DeploymentUnconfirmed
      else if window.deploymentLate then DeploymentLate else if window.contamination then TreatmentControlContamination
      else if window.adapterDrift then ObservationAdapterDrift else if window.missingBaseline then MissingBaseline
      else if window.missingControl then MissingControl else InsufficientRepeats;
  }

  /** Two independent layers can be matched exactly when two edges differ at both ends. */
  lemma TwoIndependentEdges(edges: set<Edge>)
    ensures |MaxIndependentLayers(edges)| >= 2 <==> exists e, f :: e in edges && f in edges && e.0 != f.0 && e.1 != f.1
  {
    FinalMatchIsMaximum(edges);
    if e, f :| e in edges && f in edges && e.0 != f.0 && e.1 != f.1 {
      var pair := PairMatching(edges, e, f);
    }
    if |FinalMatch(edges).Keys| >= 2 {
      var e, f := TwoOfMatching(edges, FinalMatch(edges));
    }
  }

  lemma PairMatching(edges: set<Edge>, e: Edge, f: Edge) returns (pair: Match)
    requires e in edges && f in edges && e.0 != f.0 && e.1 != f.1
    ensures IsMatching(edges, pair) && |pair.Keys| == 2
  {
    pair := map[e.1 := e.0, f.1 := f.0];
    assert pair.Keys == {e.1, f.1};
  }

  lemma TwoOfMatching(edges: set<Edge>, m: Match) returns (e: Edge, f: Edge)
    requires IsMatching(edges, m) && |m.Keys| >= 2
    ensures e in edges && f in edges && e.0 != f.0 && e.1 != f.1
  {
    var a :| a in m.Keys;
    assert |m.Keys - {a}| >= 1;
    var b :| b in m.Keys - {a};
    e, f := (m[a], a), (m[b], b);
  }

  /** A sound input with exactly one independent layer fails for that reason; PASS never carries the code. */
  lemma SingleLayerFails(signals: seq<Signal>, evidence: EvidenceCheck, window: WindowState, policy: Policy)
    ensures var d := DecisionOf(signals, evidence, window, policy);
            && (|d.qualifyingLayers| == 1 && d.verdict != Undetermined ==>
                d.verdict == Fail && SingleLayerOnly in d.reasonCodes)
            && (d.verdict == Pass ==> SingleLayerOnly !in d.reasonCodes)
            && (d.verdict == Fail ==> d.reasonCodes != [])
  {
    var codes := InputCodes(signals, evidence, window);
    var independent := |MaxIndependentLayers(QualifyingEdges(signals))|;
    EveryCodeIsOrdered();
    InputCodesMeaning(signals, evidence, window);
    hide InputCodes, QualifyingEdges, MaxIndependentLayers, CODE_ORDER;
    assert SingleLayerOnly !in codes;
    if VerdictOf(codes, independent) == Fail {
      var c :| c in FinalCodes(codes, independent);
      assert c in SortBy(CODE_ORDER, FinalCodes(codes, independent));
    }
  }

  lemma EveryCodeIsOrdered()
    ensures forall c: ReasonCode :: c in CODE_ORDER
    ensures Distinct(CODE_ORDER)
  {
    var o := CODE_ORDER;
    assert o[0] == DeploymentLate && o[1] == DeploymentUnconfirmed && o[2] == DuplicateEvidenceBasis
           && o[3] == EvidenceHashMismatch;
    assert o[4] == InsufficientRepeats && o[5] == MissingBaseline && o[6] == MissingControl
           && o[7] == MissingRawEvidenceRef;
    assert o[8] == NegativeOrInconclusiveLift && o[9] == NoControlAdjustedLift && o[10] == NonFiniteInput;
    assert o[11] == ObservationAdapterDrift && o[12] == SingleLayerOnly && o[13] == TreatmentControlContamination
           && o[14] == WindowIncomplete;
    forall c: ReasonCode ensures c in o {
      match c
      case DeploymentLate => case DeploymentUnconfirmed => case DuplicateEvidenceBasis => case EvidenceHashMismatch =>
      case InsufficientRepeats => case MissingBaseline => case MissingControl => case MissingRawEvidenceRef =>
      case NegativeOrInconclusiveLift => case NoControlAdjustedLift => case NonFiniteInput =>
      case ObservationAdapterDrift =>
      case SingleLayerOnly => case TreatmentControlContamination => case WindowIncomplete =>
    }
  }

  /** Every qualifying layer is inside the control-adjusted view, and comes from a qualifying signal. */
  lemma QualifyingLayersAreAdjusted(signals: seq<Signal>, evidence: EvidenceCheck, window: WindowState, policy: Policy)
    ensures var d := DecisionOf(signals, evidence, window, policy);
            forall l :: l in d.qualifyingLayers ==>
              l in d.controlAdjustedView && exists s :: s in signals && Qualifies(s) && s.layer == l
  {
    var edges := QualifyingEdges(signals);
    FinalMatchIsMaximum(edges);
    var m := FinalMatch(edges);
    forall l | l in MaxIndependentLayers(edges)
      ensures l in AdjustedLayers(signals) && exists s :: s in signals && Qualifies(s) && s.layer == l
    {
      var b :| b in m && m[b] == l;
      assert (l, b) in edges;
      var s :| s in signals && Qualifies(s) && (s.layer, s.basis) == (l, b);
    }
  }

  /** The whole decision is the same for every order of the signals. */
  lemma OrderDoesNotMatter(signals: seq<Signal>, permuted: seq<Signal>, evidence: EvidenceCheck, window: WindowState,
                           policy: Policy)
    requires multiset(signals) == multiset(permuted)
    ensures DecisionOf(signals, evidence, window, policy) == DecisionOf(permuted, evidence, window, policy)
  {
    forall s ensures s in signals <==> s in permuted {
      assert s in multiset(signals) <==> s in multiset(permuted);
    }
    assert QualifyingEdges(signals) == QualifyingEdges(permuted);
    assert RawLayers(signals) == RawLayers(permuted);
    assert AdjustedLayers(signals) == AdjustedLayers(permuted);
    SharesBasisByCount(signals);
    SharesBasisByCount(permuted);
    InputCodesMeaning(signals, evidence, window);
    InputCodesMeaning(permuted, evidence, window);
    forall c ensures SignalCode(c, signals) <==> SignalCode(c, permuted) {}
    assert InputCodes(signals, evidence, window) == InputCodes(permuted, evidence, window);
  }

  /** Sharing a basis, told from how often each result occurs. */
  ghost predicate SharesBasisIn(bag: multiset<Signal>) {
    || (exists s :: s in bag && IsFinite(s) && bag[s] >= 2)
    || (exists s, t :: s in bag && t in bag && s != t && IsFinite(s) && IsFinite(t) && s.basis == t.basis)
  }

  lemma SharesBasisByCount(signals: seq<Signal>)
    ensures SharesBasis(signals) <==> SharesBasisIn(multiset(signals))
  {
    var bag := multiset(signals);
    if SharesBasis(signals) {
      var i, j :| 0 <= i < j < |signals| && IsFinite(signals[i]) && IsFinite(signals[j])
          && signals[i].basis == signals[j].basis;
      assert signals[i] in bag && signals[j] in bag;
      if signals[i] == signals[j] {
        CountTwice(signals, i, j);
      }
    }
    if s :| s in bag && IsFinite(s) && bag[s] >= 2 {
      var i, j := FindTwice(signals, s);
    } else if s, t :| s in bag && t in bag && s != t && IsFinite(s) && IsFinite(t) && s.basis == t.basis {
      var i :| 0 <= i < |signals| && signals[i] == s;
      var j :| 0 <= j < |signals| && signals[j] == t;
      assert i < j || j < i;
    }
  }

  lemma CountTwice<T>(xs: seq<T>, i: nat, j: nat)
    requires i < j < |xs| && xs[i] == xs[j]
    ensures multiset(xs)[xs[i]] >= 2
  {
    assert xs == xs[..j] + xs[j..];
    assert xs[i] in xs[..j] && xs[j] in xs[j..];
    assert multiset(xs) == multiset(xs[..j]) + multiset(xs[j..]);
  }

  lemma {:induction false} FindTwice<T>(xs: seq<T>, x: T) returns (i: nat, j: nat)
    requires multiset(xs)[x] >= 2
    ensures i < j < |xs| && xs[i] == x && xs[j] == x
  {
    assert xs == [xs[0]] + xs[1..];
    assert multiset(xs) == multiset([xs[0]]) + multiset(xs[1..]);
    if xs[0] == x {
      assert multiset(xs[1..])[x] >= 1;
      var k :| 0 <= k < |xs[1..]| && xs[1..][k] == x;
      i, j := 0, k + 1;
    } else {
      i, j := FindTwice(xs[1..], x);
      i, j := i + 1, j + 1;
    }
  }

  /** Submitting a present signal once more, anywhere in the batch, changes nothing but the duplicate-basis code. */
  lemma ResubmissionAddsOnlyTheDuplicateCode(before: seq<Signal>, after: seq<Signal>, s: Signal,
                                             evidence: EvidenceCheck, window: WindowState, policy: Policy)
    requires s in before + after
    ensures var d0 := DecisionOf(before + after, evidence, window, policy);
            var d1 := DecisionOf(before + [s] + after, evidence, window, policy);
            && d1 == d0.(reasonCodes := d1.reasonCodes)
            && (forall c :: c in d1.reasonCodes <==>
                              c in d0.reasonCodes || (c == DuplicateEvidenceBasis && IsFinite(s)))
  {
    var xs := before + after;
    assert multiset(before + [s] + after) == multiset(xs + [s]);
    OrderDoesNotMatter(before + [s] + after, xs + [s], evidence, window, policy);
    ResubmissionAtTheEnd(xs, s, evidence, window, policy);
  }

  lemma ResubmissionAtTheEnd(xs: seq<Signal>, s: Signal, evidence: EvidenceCheck, window: WindowState, policy: Policy)
    requires s in xs
    ensures var d0 := DecisionOf(xs, evidence, window, policy);
            var d1 := DecisionOf(xs + [s], evidence, window, policy);
            && d1 == d0.(reasonCodes := d1.reasonCodes)
            && (forall c :: c in d1.reasonCodes <==>
                              c in d0.reasonCodes || (c == DuplicateEvidenceBasis && IsFinite(s)))
  {
    hide InputCodes, QualifyingEdges, RawLayers, AdjustedLayers, MaxIndependentLayers, VerdictOf, FinalCodes,
      CODE_ORDER, Distinct;
    ViewsSurviveResubmission(xs, s);
    var extra := if IsFinite(s) then {DuplicateEvidenceBasis} else {};
    CodesAfterResubmission(xs, s, evidence, window);
    NoCodeOnlyWhenNothingToExplain(xs, evidence, window);
    OutcomeIgnoresDuplicates(InputCodes(xs, evidence, window), extra, |MaxIndependentLayers(QualifyingEdges(xs))|);
    EveryCodeIsOrdered();
  }

  lemma ViewsSurviveResubmission(signals: seq<Signal>, s: Signal)
    requires s in signals
    ensures RawLayers(signals + [s]) == RawLayers(signals)
    ensures AdjustedLayers(signals + [s]) == AdjustedLayers(signals)
    ensures QualifyingEdges(signals + [s]) == QualifyingEdges(signals)
  {
    OneMoreSignal(signals, s);
  }

  lemma CodesAfterResubmission(signals: seq<Signal>, s: Signal, evidence: EvidenceCheck, window: WindowState)
    requires s in signals
    ensures InputCodes(signals + [s], evidence, window)
         == InputCodes(signals, evidence, window) + (if IsFinite(s) then {DuplicateEvidenceBasis} else {})
  {
    InputCodesMeaning(signals, evidence, window);
    InputCodesMeaning(signals + [s], evidence, window);
    OneMoreSharesBasis(signals, s);
    assert IsFinite(s) ==> s.basis in FiniteBases(signals);
    assert forall t :: t in signals + [s] <==> t in signals;
  }

  lemma OutcomeIgnoresDuplicates(codes: set<ReasonCode>, extra: set<ReasonCode>, independent: nat)
    requires extra <= {DuplicateEvidenceBasis}
    requires codes == {} ==> independent >= 1
    ensures VerdictOf(codes + extra, independent) == VerdictOf(codes, independent)
    ensures FinalCodes(codes + extra, independent) == FinalCodes(codes, independent) + extra
  {
    assert AnyUndetermines(codes + extra) <==> AnyUndetermines(codes) by {
      if c :| c in codes && Undetermines(c) {
        assert c in codes + extra;
      }
    }
  }

  /** When no code is recorded, every submitted signal qualifies. */
  lemma NoCodeOnlyWhenNothingToExplain(signals: seq<Signal>, evidence: EvidenceCheck, window: WindowState)
    ensures InputCodes(signals, evidence, window) == {} && signals != [] ==>
              |MaxIndependentLayers(QualifyingEdges(signals))| >= 1
  {
    if InputCodes(signals, evidence, window) == {} && signals != [] {
      var s := signals[0];
      InputCodesMeaning(signals, evidence, window);
      forall c ensures !OwnCode(c, s) {
        assert !SignalCode(c, signals);
      }
      NoCodesMeansQualified(s);
      var edges := QualifyingEdges(signals);
      assert (s.layer, s.basis) in edges;
      OneEdgeMatches(edges, (s.layer, s.basis));
    }
  }

  lemma OneEdgeMatches(edges: set<Edge>, e: Edge)
    requires e in edges
    ensures |MaxIndependentLayers(edges)| >= 1
  {
    FinalMatchIsMaximum(edges);
    var one: Match := map[e.1 := e.0];
    assert IsMatching(edges, one) && |one.Keys| == 1;
  }

  lemma NoCodesMeansQualified(s: Signal)
    requires forall c :: !OwnCode(c, s)
    ensures Qualifies(s)
  {
    assert !OwnCode(NonFiniteInput, s) && !OwnCode(InsufficientRepeats, s) && !OwnCode(MissingRawEvidenceRef, s)
        && !OwnCode(NoControlAdjustedLift, s) && !OwnCode(NegativeOrInconclusiveLift, s);
  }
}
