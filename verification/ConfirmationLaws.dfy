/** What each verdict and each clock stands for, guard by guard, and what a replay is answered with. */
module ConfirmationLaws {
  import opened Common
  import opened Confirmation

  // ------------------------------------------------------- reasons of a reject

  predicate Aware(t: Timestamp) {
    t.zone.Some?
  }

  predicate TimesAware(s: Submission) {
    Aware(s.receivedAt) && Aware(s.claim.confirmedAt)
  }

  predicate SameTenant(s: Submission) {
    s.claim.tenantId == s.view.tenantId
  }

  predicate SameRun(s: Submission) {
    && s.claim.runId == s.view.runId && s.claim.project == s.view.project && s.claim.site == s.view.site
    && s.claim.experimentId == s.view.experimentId
  }

  /** The submission reaches the look-up of its key: it is the registered tenant's, for the registered run. */
  predicate Identified(s: Submission) {
    TimesAware(s) && SameTenant(s) && SameRun(s)
  }

  /** It names the registration and what was deployed where. */
  predicate Linked(s: Submission) {
    && s.claim.canonicalHash == s.view.canonicalHash
    && (s.claim.commitSha.Some? || s.claim.artifactHash.Some?)
    && s.claim.target.Some?
  }

  /** A verifier is there and answers with the literal `True`. */
  predicate Trusted(s: Submission) {
    s.verifier.Some? && s.verifier.value(s.claim).True?
  }

  predicate ViewAware(s: Submission) {
    Aware(s.view.createdAt) && Aware(s.view.approvedAt)
  }

  predicate NotBackdated(s: Submission) {
    s.claim.confirmedAt.at >= s.view.createdAt.at || s.claim.confirmedAt.at >= s.view.approvedAt.at
  }

  predicate NotFuture(s: Submission) {
    s.claim.confirmedAt.at <= s.receivedAt.at + s.skewSeconds * 1_000_000
  }

  /** The submission gets past every guard before the times are compared. */
  predicate ReachesTimes(s: Submission, prior: PriorState) {
    Identified(s) && s.claim.key !in prior && Linked(s) && Trusted(s) && ViewAware(s)
  }

  /** Each verdict is given exactly when the guards before it hold and its own fails. */
  lemma VerdictsAre(h: Fingerprint, s: Submission, prior: PriorState)
    ensures var v := ValidateConfirmation(h, s, prior);
            var c := s.claim;
            var known := c.key in prior;
            && (v.Rejected? ==> v.key == c.key && v.experimentId == c.experimentId)
            && (v == Reject(NaiveTimestamp, c) <==> !TimesAware(s))
            && (v == Reject(CrossTenantReplay, c) <==> TimesAware(s) && !SameTenant(s))
            && (v == Reject(IdentityMismatch, c) <==> TimesAware(s) && SameTenant(s) && !SameRun(s))
            && (v.Duplicate? <==> Identified(s) && known && prior[c.key].fingerprint == h(c))
            && (v.Duplicate? ==> v.original == prior[c.key])
            && (v == Reject(ConflictingReplay, c) <==> Identified(s) && known && prior[c.key].fingerprint != h(c))
            && (v == Reject(UnknownRegistration, c) <==>
                  Identified(s) && !known && c.canonicalHash != s.view.canonicalHash)
            && (v == Reject(MissingDeployArtifact, c) <==>
                  Identified(s) && !known && c.canonicalHash == s.view.canonicalHash
                  && c.commitSha.None? && c.artifactHash.None?)
            && (v == Reject(MissingDeploymentTarget, c) <==>
                  Identified(s) && !known && c.canonicalHash == s.view.canonicalHash
                  && (c.commitSha.Some? || c.artifactHash.Some?) && c.target.None?)
            && (v == Reject(UntrustedConfirmer, c) <==> Identified(s) && !known && Linked(s) && s.verifier.None?)
            && (v == Reject(ConfirmerVerificationFailed, c) <==>
                  Identified(s) && !known && Linked(s) && s.verifier.Some? && !s.verifier.value(c).True?)
            && (v == RaisedTypeError <==> Identified(s) && !known && Linked(s) && Trusted(s) && !ViewAware(s))
            && (v == Reject(BackdatedConfirmation, c) <==> ReachesTimes(s, prior) && !NotBackdated(s))
            && (v == RaisedValueError <==> ReachesTimes(s, prior) && NotBackdated(s) && s.skewSeconds < 0)
            && (v == Reject(FutureConfirmation, c) <==>
                  ReachesTimes(s, prior) && NotBackdated(s) && s.skewSeconds >= 0 && !NotFuture(s))
            && (v.Accepted? <==> ReachesTimes(s, prior) && NotBackdated(s) && s.skewSeconds >= 0 && NotFuture(s))
            && (v.Accepted? ==> v.acceptance == Acceptance(c, s.view, s.receivedAt, h(c)))
  {
    BeforeTheKey(h, s, prior);
    WhenKnown(h, s, prior);
    WhenNew(h, s, prior);
    OnTimes(h, s, prior);
    hide ValidateConfirmation;
  }

  /** What is decided before the key is looked up. */
  lemma BeforeTheKey(h: Fingerprint, s: Submission, prior: PriorState)
    ensures !Identified(s) ==>
              ValidateConfirmation(h, s, prior)
              == Reject(if !TimesAware(s) then NaiveTimestamp else if !SameTenant(s) then CrossTenantReplay
                        else IdentityMismatch, s.claim)
  {}

  lemma WhenKnown(h: Fingerprint, s: Submission, prior: PriorState)
    ensures Identified(s) && s.claim.key in prior ==>
              ValidateConfirmation(h, s, prior)
              == if prior[s.claim.key].fingerprint == h(s.claim) then Duplicate(prior[s.claim.key])
                 else Reject(ConflictingReplay, s.claim)
  {}

  /** What is decided of a new key before times are compared. */
  lemma WhenNew(h: Fingerprint, s: Submission, prior: PriorState)
    ensures var c := s.claim;
            Identified(s) && c.key !in prior && !(Linked(s) && Trusted(s) && ViewAware(s)) ==>
              ValidateConfirmation(h, s, prior)
              == if c.canonicalHash != s.view.canonicalHash then Reject(UnknownRegistration, c)
                 else if c.commitSha.None? && c.artifactHash.None? then Reject(MissingDeployArtifact, c)
                 else if c.target.None? then Reject(MissingDeploymentTarget, c)
                 else if s.verifier.None? then Reject(UntrustedConfirmer, c)
                 else if !Trusted(s) then Reject(ConfirmerVerificationFailed, c)
                 else RaisedTypeError
  {}

  lemma OnTimes(h: Fingerprint, s: Submission, prior: PriorState)
    ensures var c := s.claim;
            ReachesTimes(s, prior) ==>
              ValidateConfirmation(h, s, prior)
              == if !NotBackdated(s) then Reject(BackdatedConfirmation, c)
                 else if s.skewSeconds < 0 then RaisedValueError
                 else if !NotFuture(s) then Reject(FutureConfirmation, c)
                 else Accepted(Acceptance(c, s.view, s.receivedAt, h(c)))
  {}

  // ---------------------------------------------------------------- replays

  /** Sending an accepted claim again, later and with aware times, under a registration of the same identity, is
      answered with the acceptance it had, whatever was submitted in between. */
  lemma ReplayIsADuplicate(h: Fingerprint, prior: PriorState, subs: seq<Submission>, i: nat, j: nat)
    requires i < j < |subs| && subs[j].claim == subs[i].claim && Identified(subs[j])
    requires Run(h, prior, subs).1[i].Accepted?
    ensures Run(h, prior, subs).1[j] == Duplicate(Run(h, prior, subs).1[i].acceptance)
  {
    var before := StateBefore(h, prior, subs, j);
    AcceptedIsKept(h, prior, subs, i, j);
    VerdictAt(h, prior, subs, i);
    VerdictAt(h, prior, subs, j);
    VerdictsAre(h, subs[i], StateBefore(h, prior, subs, i));
    VerdictsAre(h, subs[j], before);
    hide ValidateConfirmation, Run, StateBefore;
  }

  /** Another claim under the key of an accepted one is a conflict, if its content has another fingerprint. */
  lemma OtherContentIsAConflict(h: Fingerprint, prior: PriorState, subs: seq<Submission>, i: nat, j: nat)
    requires i < j < |subs| && subs[j].claim.key == subs[i].claim.key && Identified(subs[j])
    requires h(subs[j].claim) != h(subs[i].claim)
    requires Run(h, prior, subs).1[i].Accepted?
    ensures Run(h, prior, subs).1[j] == Reject(ConflictingReplay, subs[j].claim)
  {
    AcceptedIsKept(h, prior, subs, i, j);
    VerdictAt(h, prior, subs, i);
    VerdictAt(h, prior, subs, j);
    VerdictsAre(h, subs[i], StateBefore(h, prior, subs, i));
    VerdictsAre(h, subs[j], StateBefore(h, prior, subs, j));
    hide ValidateConfirmation, Run, StateBefore;
  }

  /** A claim of another tenant or run learns nothing of what is stored under its key. */
  lemma StrangersLearnNothing(h: Fingerprint, s: Submission, a: PriorState, b: PriorState)
    requires !SameTenant(s) || !SameRun(s)
    ensures ValidateConfirmation(h, s, a) == ValidateConfirmation(h, s, b)
    ensures ValidateConfirmation(h, s, a).Rejected?
    ensures ValidateConfirmation(h, s, a).reason != ConflictingReplay
  {}

  /** What the caller has stored before the `j`th submission. */
  function StateBefore(h: Fingerprint, prior: PriorState, subs: seq<Submission>, j: nat): PriorState
    requires j <= |subs|
  {
    Run(h, prior, subs[..j]).0
  }

  lemma {:induction false} VerdictAt(h: Fingerprint, prior: PriorState, subs: seq<Submission>, j: nat)
    requires j < |subs|
    ensures Run(h, prior, subs).1[j] == ValidateConfirmation(h, subs[j], StateBefore(h, prior, subs, j))
    decreases |subs|
  {
    hide ValidateConfirmation;
    RunNext(h, prior, subs, j);
    if j > 0 {
      var next := Remembered(prior, ValidateConfirmation(h, subs[0], prior));
      VerdictAt(h, next, subs[1..], j - 1);
      assert subs[..j][1..] == subs[1..][..j - 1];
    } else {
      assert subs[..0] == [];
    }
  }

  lemma {:induction false} OneMoreSubmission(h: Fingerprint, prior: PriorState, subs: seq<Submission>, s: Submission)
    ensures Run(h, prior, subs + [s]).0
         == Remembered(Run(h, prior, subs).0, ValidateConfirmation(h, s, Run(h, prior, subs).0))
    decreases |subs|
  {
    hide ValidateConfirmation;
    if subs == [] {
      assert [] + [s] == [s] && [s][1..] == [];
    } else {
      assert (subs + [s])[1..] == subs[1..] + [s];
      OneMoreSubmission(h, Remembered(prior, ValidateConfirmation(h, subs[0], prior)), subs[1..], s);
    }
  }

  /** An acceptance is stored when it is given, and stays. */
  lemma {:induction false} AcceptedIsKept(h: Fingerprint, prior: PriorState, subs: seq<Submission>, i: nat, j: nat)
    requires i < j <= |subs| && Run(h, prior, subs).1[i].Accepted?
    ensures var before := StateBefore(h, prior, subs, j);
            subs[i].claim.key in before && before[subs[i].claim.key] == Run(h, prior, subs).1[i].acceptance
    decreases j
  {
    hide ValidateConfirmation;
    assert subs[..j] == subs[..j - 1] + [subs[j - 1]];
    OneMoreSubmission(h, prior, subs[..j - 1], subs[j - 1]);
    VerdictAt(h, prior, subs, i);
    AcceptedIff(h, subs[i], StateBefore(h, prior, subs, i));
    AcceptedIff(h, subs[j - 1], StateBefore(h, prior, subs, j - 1));
    if i < j - 1 { AcceptedIsKept(h, prior, subs, i, j - 1); }
  }

  // ---------------------------------------------------------------- the clock

  /** The policy in force: the given one, or seven days of measurement after at most two days of delay. */
  function InForce(policy: Option<Policy>): Policy {
    match policy
    case Some(p) => p
    case None => Policy(7, 2)
  }

  /** The registration is the one the acceptance was made for: equal fields, and equal moments. */
  predicate SameRegistration(v: View, w: View) {
    && (v.experimentId, v.tenantId, v.runId, v.project, v.site, v.canonicalHash)
       == (w.experimentId, w.tenantId, w.runId, w.project, w.site, w.canonicalHash)
    && v.createdAt.at == w.createdAt.at && v.createdAt.zone.Some? == w.createdAt.zone.Some?
    && v.approvedAt.at == w.approvedAt.at && v.approvedAt.zone.Some? == w.approvedAt.zone.Some?
  }

  /** Each outcome of starting a clock, for any acceptance and registration. */
  lemma ClocksAre(a: Acceptance, view: View, policy: Option<Policy>)
    ensures var clock := StartMeasurementWindow(a, view, policy);
            var p := InForce(policy);
            var deadline := view.approvedAt.at + p.maxDeployDelayDays * 86_400_000_000;
            var usable := SameRegistration(a.view, view) && Aware(a.receivedAt);
            && (clock == ClockValueError <==> !usable)
            && (clock == ClockTypeError <==> usable && !Aware(view.approvedAt))
            && (clock == DeploymentLate <==> usable && Aware(view.approvedAt) && a.receivedAt.at > deadline)
            && (clock.Window? <==> usable && Aware(view.approvedAt) && a.receivedAt.at <= deadline)
            && (clock.Window? ==>
                  && clock.anchor == a.receivedAt
                  && clock.end == Timestamp(a.receivedAt.at + p.windowDays * 86_400_000_000, a.receivedAt.zone)
                  && clock.windowDays == p.windowDays && clock.key == a.claim.key
                  && clock.fingerprint == a.fingerprint)
  {}

  /** A duplicate resolves to the window there is exactly when key and fingerprint agree, and is a conflict on that key
      otherwise. */
  lemma ResolvesIffSame(existing: Clock, original: Acceptance)
    requires existing.Window?
    ensures var r := ResolveDuplicateWindow(existing, original);
            && (r == existing <==> original.claim.key == existing.key && original.fingerprint == existing.fingerprint)
            && (r != existing ==> r == ClockConflict(existing.key))
  {}
}
