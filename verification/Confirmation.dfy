/** Accepting a deployment confirmation, and starting the measurement clock from an accepted one. */
module Confirmation {
  import opened Common

  const SECOND := 1_000_000
  const DAY := 86_400 * SECOND

  /** A point in time in microseconds; without a zone it is naive and cannot be compared with one that has a zone. */
  datatype Timestamp = Timestamp(at: int, zone: Option<int>)

  predicate IsNaive(t: Timestamp) {
    t.zone == None
  }

  /** Python's equality of datetimes: same instant, both naive or both aware. */
  predicate SameMoment(s: Timestamp, t: Timestamp) {
    s.at == t.at && (IsNaive(s) <==> IsNaive(t))
  }

  datatype View = View(
    experimentId: string,
    tenantId: string,
    runId: string,
    project: string,
    site: string,
    canonicalHash: string,
    createdAt: Timestamp,
    approvedAt: Timestamp)

  predicate SameView(v: View, w: View) {
    && v.(createdAt := w.createdAt, approvedAt := w.approvedAt) == w
    && SameMoment(v.createdAt, w.createdAt)
    && SameMoment(v.approvedAt, w.approvedAt)
  }

  datatype Claim = Claim(
    experimentId: string,
    tenantId: string,
    runId: string,
    project: string,
    site: string,
    canonicalHash: string,
    target: Option<string>,
    commitSha: Option<string>,
    artifactHash: Option<string>,
    confirmedAt: Timestamp,
    key: string,
    identity: string,
    signature: string)

  /** What a verifier may hand back: the literal `True`, something merely truthy, or something falsy. */
  datatype Answer = True | Truthy | Falsy

  type Verifier = Claim -> Answer

  datatype Reason =
    | CrossTenantReplay
    | IdentityMismatch
    | MissingDeployArtifact
    | MissingDeploymentTarget
    | UntrustedConfirmer
    | ConfirmerVerificationFailed
    | BackdatedConfirmation
    | FutureConfirmation
    | ConflictingReplay
    | UnknownRegistration
    | NaiveTimestamp

  datatype Acceptance = Acceptance(claim: Claim, view: View, receivedAt: Timestamp, fingerprint: string)

  /** The three verdicts, and the exceptions Python raises instead of one. */
  datatype Verdict =
    | Accepted(acceptance: Acceptance)
    | Rejected(reason: Reason, key: string, experimentId: string)
    | Duplicate(original: Acceptance)
    | RaisedValueError
    | RaisedTypeError

  type PriorState = map<string, Acceptance>

  /** The content fingerprint: SHA-256 over the canonical JSON of the claim. */
  type Fingerprint = Claim -> string

  ghost predicate CollisionFree(h: Fingerprint) {
    forall a, b :: h(a) == h(b) ==> a == b
  }

  datatype Submission = Submission(claim: Claim, view: View, receivedAt: Timestamp, verifier: Option<Verifier>,
                                   skewSeconds: int)

  function Reject(reason: Reason, claim: Claim): Verdict {
    Rejected(reason, claim.key, claim.experimentId)
  }

  function ValidateConfirmation(h: Fingerprint, s: Submission, prior: PriorState): Verdict {
    var c, v := s.claim, s.view;
    if IsNaive(s.receivedAt) || IsNaive(c.confirmedAt) then Reject(NaiveTimestamp, c)
    else if c.tenantId != v.tenantId then Reject(CrossTenantReplay, c)
    else if c.runId != v.runId || c.project != v.project || c.site != v.site || c.experimentId != v.experimentId then
        Reject(IdentityMismatch, c)
    else if c.key in prior then
      if prior[c.key].fingerprint == h(c) then Duplicate(prior[c.key]) else Reject(ConflictingReplay, c)
    else if c.canonicalHash != v.canonicalHash then Reject(UnknownRegistration, c)
    else if c.commitSha == None && c.artifactHash == None then Reject(MissingDeployArtifact, c)
    else if c.target == None then Reject(MissingDeploymentTarget, c)
    else if s.verifier == None then Reject(UntrustedConfirmer, c)
    else if s.verifier.value(c) != True then Reject(ConfirmerVerificationFailed, c)
    else if IsNaive(v.createdAt) || IsNaive(v.approvedAt) then RaisedTypeError
    else
      var earliest := if v.approvedAt.at < v.createdAt.at then v.approvedAt.at else v.createdAt.at;
      if c.confirmedAt.at < earliest then Reject(BackdatedConfirmation, c)
      else if s.skewSeconds < 0 then RaisedValueError
      else if c.confirmedAt.at > s.receivedAt.at + s.skewSeconds * SECOND then Reject(FutureConfirmation, c)
      else Accepted(Acceptance(c, v, s.receivedAt, h(c)))
  }

  /** The caller's part: an accepted verdict is stored under its key. */
  function Remembered(prior: PriorState, verdict: Verdict): PriorState {
    if verdict.Accepted? then prior[verdict.acceptance.claim.key := verdict.acceptance] else prior
  }

  /** The state after a run of submissions, and the verdict of each. */
  function Run(h: Fingerprint, prior: PriorState, subs: seq<Submission>): (r: (PriorState, seq<Verdict>))
    ensures |r.1| == |subs|
    decreases |subs|
  {
    if subs == [] then (prior, [])
    else
      var verdict := ValidateConfirmation(h, subs[0], prior);
      var (last, more) := Run(h, Remembered(prior, verdict), subs[1..]);
      (last, [verdict] + more)
  }

  // ---------------------------------------------------------------- the clock

  datatype Policy = Policy(windowDays: int, maxDeployDelayDays: int)

  const DEFAULT_POLICY := Policy(7, 2)

  predicate ValidPolicy(p: Policy) {
    p.windowDays > 0 && p.maxDeployDelayDays >= 0
  }

  datatype Clock =
    | Window(anchor: Timestamp, end: Timestamp, windowDays: int, key: string, fingerprint: string)
    | DeploymentLate
    | ClockValueError
    | ClockTypeError
    | ClockConflict(conflictKey: string)

  function StartMeasurementWindow(a: Acceptance, view: View, policy: Option<Policy>): Clock {
    var p := if policy.Some? then policy.value else DEFAULT_POLICY;
    if !SameView(a.view, view) || IsNaive(a.receivedAt) then ClockValueError
    else if IsNaive(view.approvedAt) then ClockTypeError
    else if a.receivedAt.at > view.approvedAt.at + p.maxDeployDelayDays * DAY then DeploymentLate
    else Window(a.receivedAt, a.receivedAt.(at := a.receivedAt.at + p.windowDays * DAY), p.windowDays, a.claim.key,
                a.fingerprint)
  }

  function ResolveDuplicateWindow(existing: Clock, original: Acceptance): Clock
    requires existing.Window?
  {
    if original.claim.key != existing.key || original.fingerprint != existing.fingerprint then
        ClockConflict(existing.key)
    else existing
  }

  // ------------------------------------------------------------ one submission

  /** What an acceptance stands for, whatever order the guards run in. */
  predicate Genuine(h: Fingerprint, a: Acceptance) {
    var c, v := a.claim, a.view;
    && a.fingerprint == h(c)
    && !IsNaive(a.receivedAt) && !IsNaive(c.confirmedAt) && !IsNaive(v.createdAt) && !IsNaive(v.approvedAt)
    && (c.tenantId, c.runId, c.project, c.site, c.experimentId, c.canonicalHash)
       == (v.tenantId, v.runId, v.project, v.site, v.experimentId, v.canonicalHash)
    && (c.commitSha.Some? || c.artifactHash.Some?) && c.target.Some?
    && (c.confirmedAt.at >= v.createdAt.at || c.confirmedAt.at >= v.approvedAt.at)
  }

  /** A submission is accepted exactly when its key is new, its claim is genuine, its verifier says `True`, and it is
      not from the future. */
  lemma AcceptedIff(h: Fingerprint, s: Submission, prior: PriorState)
    ensures var a := Acceptance(s.claim, s.view, s.receivedAt, h(s.claim));
            ValidateConfirmation(h, s, prior).Accepted? <==>
              && s.claim.key !in prior
              && Genuine(h, a)
              && s.verifier.Some? && s.verifier.value(s.claim) == True
              && s.skewSeconds >= 0 && s.claim.confirmedAt.at <= s.receivedAt.at + s.skewSeconds * SECOND
    ensures ValidateConfirmation(h, s, prior).Accepted? ==>
              ValidateConfirmation(h, s, prior).acceptance == Acceptance(s.claim, s.view, s.receivedAt, h(s.claim))
  {}

  /** A key already accepted is never accepted again, and nothing is raised for it. */
  lemma KnownKey(h: Fingerprint, s: Submission, prior: PriorState)
    requires s.claim.key in prior
    ensures var v := ValidateConfirmation(h, s, prior);
            v.Rejected? || v == Duplicate(prior[s.claim.key])
  {}

  ghost predicate SoundState(h: Fingerprint, prior: PriorState) {
    forall k :: k in prior ==> prior[k].claim.key == k && Genuine(h, prior[k])
  }

  lemma StepKeepsSound(h: Fingerprint, prior: PriorState, s: Submission)
    requires SoundState(h, prior)
    ensures SoundState(h, Remembered(prior, ValidateConfirmation(h, s, prior)))
  {
    hide ValidateConfirmation, Genuine;
    AcceptedIff(h, s, prior);
  }

  // ------------------------------------------------------------- whole runs

  lemma RunNext(h: Fingerprint, prior: PriorState, subs: seq<Submission>, j: nat)
    requires j < |subs|
    ensures var v := ValidateConfirmation(h, subs[0], prior);
            Run(h, prior, subs).1[j] == if j == 0 then v else Run(h, Remembered(prior, v), subs[1..]).1[j - 1]
  {
    hide ValidateConfirmation;
  }

  /** Once stored, an acceptance stays, and it is what every later submission with its key is answered with, if not
      rejected. */
  lemma {:induction false} StoredDecides(h: Fingerprint, prior: PriorState, subs: seq<Submission>, j: nat)
    requires j < |subs| && subs[j].claim.key in prior
    ensures var v := Run(h, prior, subs).1[j];
            v.Rejected? || v == Duplicate(prior[subs[j].claim.key])
    decreases |subs|
  {
    hide ValidateConfirmation;
    RunNext(h, prior, subs, j);
    if j == 0 {
      KnownKey(h, subs[0], prior);
    } else {
      var v := ValidateConfirmation(h, subs[0], prior);
      AcceptedIff(h, subs[0], prior);
      StoredDecides(h, Remembered(prior, v), subs[1..], j - 1);
    }
  }

  /** Over any run a key is accepted at most once; every later submission with it is rejected or answered with that
      acceptance. */
  lemma {:induction false} AcceptedOnce(h: Fingerprint, prior: PriorState, subs: seq<Submission>, i: nat, j: nat)
    requires i < j < |subs| && subs[i].claim.key == subs[j].claim.key
    requires Run(h, prior, subs).1[i].Accepted?
    ensures var v := Run(h, prior, subs).1[j];
            v.Rejected? || v == Duplicate(Run(h, prior, subs).1[i].acceptance)
    decreases |subs|
  {
    hide ValidateConfirmation;
    RunNext(h, prior, subs, i);
    RunNext(h, prior, subs, j);
    var v := ValidateConfirmation(h, subs[0], prior);
    AcceptedIff(h, subs[0], prior);
    if i == 0 {
      StoredDecides(h, Remembered(prior, v), subs[1..], j - 1);
    } else {
      AcceptedOnce(h, Remembered(prior, v), subs[1..], i - 1, j - 1);
    }
  }

  /** The acceptance a verdict carries, if it carries one. */
  function Carried(v: Verdict): Option<Acceptance> {
    match v
    case Accepted(a) => Some(a)
    case Duplicate(a) => Some(a)
    case _ => None
  }

  /** Every acceptance carried by a verdict was stored before the run or accepted in it, for the same key and the same
      content. */
  lemma {:induction false} CarriedIsGenuine(h: Fingerprint, prior: PriorState, subs: seq<Submission>, j: nat)
    requires SoundState(h, prior) && j < |subs| && Carried(Run(h, prior, subs).1[j]).Some?
    ensures var a := Carried(Run(h, prior, subs).1[j]).value;
            && Genuine(h, a)
            && a.claim.key == subs[j].claim.key
            && a.fingerprint == h(subs[j].claim)
            && (CollisionFree(h) ==> a.claim == subs[j].claim)
            && ((a.claim.key in prior && a == prior[a.claim.key])
                || exists i :: 0 <= i <= j && Run(h, prior, subs).1[i] == Accepted(a))
    decreases |subs|
  {
    hide Genuine;
    RunNext(h, prior, subs, j);
    var v := ValidateConfirmation(h, subs[0], prior);
    AcceptedIff(h, subs[0], prior);
    if j > 0 {
      StepKeepsSound(h, prior, subs[0]);
      var next := Remembered(prior, v);
      CarriedIsGenuine(h, next, subs[1..], j - 1);
      var a := Carried(Run(h, prior, subs).1[j]).value;
      RunNext(h, prior, subs, 0);
      if i :| 0 <= i <= j - 1 && Run(h, next, subs[1..]).1[i] == Accepted(a) {
        RunNext(h, prior, subs, i + 1);
        assert Run(h, prior, subs).1[i + 1] == Accepted(a);
      }
    }
    SameContent(h, Carried(Run(h, prior, subs).1[j]).value, subs[j].claim);
  }

  lemma SameContent(h: Fingerprint, a: Acceptance, c: Claim)
    requires Genuine(h, a) && a.fingerprint == h(c)
    ensures CollisionFree(h) ==> a.claim == c
  {}

  // ------------------------------------------------------- clocks over a run

  /** The clock a caller starts from a verdict, against the registration the acceptance was made for. */
  function ClockOf(v: Verdict, policy: Option<Policy>): Option<Clock> {
    match Carried(v)
    case None => None
    case Some(a) => Some(StartMeasurementWindow(a, a.view, policy))
  }

  /** With one policy, all the clocks a key starts over a run are the same. */
  lemma {:induction false} OneClockPerKey(h: Fingerprint, prior: PriorState, subs: seq<Submission>,
                                          policy: Option<Policy>, i: nat, j: nat)
    requires i <= j < |subs| && subs[i].claim.key == subs[j].claim.key
    requires ClockOf(Run(h, prior, subs).1[i], policy).Some? && ClockOf(Run(h, prior, subs).1[j], policy).Some?
    ensures ClockOf(Run(h, prior, subs).1[i], policy) == ClockOf(Run(h, prior, subs).1[j], policy)
    ensures Carried(Run(h, prior, subs).1[i]) == Carried(Run(h, prior, subs).1[j])
    decreases |subs|
  {
    hide ValidateConfirmation, StartMeasurementWindow;
    if i < j {
      RunNext(h, prior, subs, i);
      RunNext(h, prior, subs, j);
      var v := ValidateConfirmation(h, subs[0], prior);
      AcceptedIff(h, subs[0], prior);
      if i == 0 {
        KnownOrNew(h, subs[0], prior);
        StoredDecides(h, Remembered(prior, v), subs[1..], j - 1);
      } else {
        OneClockPerKey(h, Remembered(prior, v), subs[1..], policy, i - 1, j - 1);
      }
    }
  }

  /** A verdict that carries an acceptance leaves exactly that one stored under the key. */
  lemma KnownOrNew(h: Fingerprint, s: Submission, prior: PriorState)
    ensures var v := ValidateConfirmation(h, s, prior);
            Carried(v).Some? ==>
              s.claim.key in Remembered(prior, v) && Remembered(prior, v)[s.claim.key] == Carried(v).value
  {}

  lemma NotNegative(days: int)
    ensures days >= 0 ==> days * DAY >= 0
    ensures days > 0 ==> days * DAY > 0
  {}

  /** Every clock of a run is a window anchored by the deadline and of the policy's length, or says the deployment came
      late. */
  lemma ClocksOfARun(h: Fingerprint, subs: seq<Submission>, policy: Policy, j: nat)
    requires ValidPolicy(policy) && j < |subs| && ClockOf(Run(h, map[], subs).1[j], Some(policy)).Some?
    ensures var clock := ClockOf(Run(h, map[], subs).1[j], Some(policy)).value;
            var a := Carried(Run(h, map[], subs).1[j]).value;
            var deadline := a.view.approvedAt.at + policy.maxDeployDelayDays * DAY;
            && (clock == DeploymentLate <==> a.receivedAt.at > deadline)
            && (clock.Window? <==> a.receivedAt.at <= deadline)
            && (clock.Window? ==>
                  && clock.anchor == a.receivedAt && clock.anchor.at <= deadline
                  && clock.end.at == clock.anchor.at + policy.windowDays * DAY && clock.anchor.at < clock.end.at
                  && clock.key == subs[j].claim.key && clock.fingerprint == h(subs[j].claim))
  {
    hide ValidateConfirmation, Run;
    CarriedIsGenuine(h, map[], subs, j);
    NotNegative(policy.windowDays);
  }

  /** A window opened in a run is the one every later duplicate of its key resolves to. */
  lemma DuplicateResolvesToTheSameWindow(h: Fingerprint, prior: PriorState, subs: seq<Submission>,
                                         policy: Option<Policy>, i: nat, j: nat)
    requires SoundState(h, prior) && i <= j < |subs| && subs[i].claim.key == subs[j].claim.key
    requires var c := ClockOf(Run(h, prior, subs).1[i], policy); c.Some? && c.value.Window?
    requires Run(h, prior, subs).1[j].Duplicate?
    ensures ResolveDuplicateWindow(ClockOf(Run(h, prior, subs).1[i], policy).value, Run(h, prior, subs).1[j].original)
         == ClockOf(Run(h, prior, subs).1[i], policy).value
  {
    hide ValidateConfirmation, Run;
    OneClockPerKey(h, prior, subs, policy, i, j);
  }
}
