/** The append-only ledger of pre-registered experiments: registration, idempotent replay, and chain verification. */
module ExperimentLedger {
  import opened Common

  /** Everything a registration says, apart from its hash-bearing fields. */
  datatype Content = Content(experimentId: string, tenantId: string, arms: seq<string>, metrics: seq<string>,
                             rest: string)

  datatype Registration = Registration(
    content: Content,
    canonicalHash: Option<string>,
    previousHash: Option<string>,
    contentFingerprint: Option<string>)

  /** SHA-256 over canonical JSON: of the content, and of a link with the hash before it. */
  datatype Hash = Hash(content: Content -> string, link: (Option<string>, string) -> string)

  ghost predicate CollisionFree(h: Hash) {
    && (forall a, b :: h.content(a) == h.content(b) ==> a == b)
    && (forall p, c, q, d :: h.link(p, c) == h.link(q, d) ==> p == q && c == d)
  }

  datatype Error = Rejected | Conflict

  type Ledger = seq<Registration>

  function ComputeContentFingerprint(h: Hash, r: Registration): string {
    h.content(r.content)
  }

  function ComputeExperimentHash(h: Hash, r: Registration): string {
    h.link(r.previousHash, ComputeContentFingerprint(h, r))
  }

  function TailHash(ledger: Ledger): Option<string> {
    if ledger == [] then None else ledger[|ledger| - 1].canonicalHash
  }

  /** The stored entry with this experiment id that comes first. */
  function Find(ledger: Ledger, id: string): (r: Option<Registration>)
    ensures r.Some? ==> r.value in ledger && r.value.content.experimentId == id
    ensures r.None? ==> forall e :: e in ledger ==> e.content.experimentId != id
  {
    if ledger == [] then None
    else if ledger[0].content.experimentId == id then Some(ledger[0])
    else Find(ledger[1..], id)
  }

  function Anchored(h: Hash, ledger: Ledger, r: Registration): Registration {
    var unanchored := r.(previousHash := TailHash(ledger));
    Registration(r.content, Some(ComputeExperimentHash(h, unanchored)), TailHash(ledger),
                 Some(ComputeContentFingerprint(h, unanchored)))
  }

  /** `register`: the new ledger and the stored entry, or the error raised. */
  function Register(h: Hash, ledger: Ledger, r: Registration): Result<(Ledger, Registration), Error> {
    var existing := Find(ledger, r.content.experimentId);
    if existing.Some? then
      var e := existing.value;
      if ComputeContentFingerprint(h, e) == ComputeContentFingerprint(h, r) then Ok((ledger, e))
      else if e.content.arms != r.content.arms || e.content.metrics != r.content.metrics then Err(Rejected)
      else Err(Conflict)
    else
      var entry := Anchored(h, ledger, r);
      Ok((ledger + [entry], entry))
  }

  // ---------------------------------------------------------- verification

  /** Entry `i` passes both of its checks. */
  predicate EntryHolds(h: Hash, ledger: Ledger, i: nat)
    requires i < |ledger|
  {
    && ledger[i].previousHash == (if i == 0 then None else ledger[i - 1].canonicalHash)
    && ledger[i].canonicalHash == Some(ComputeExperimentHash(h, ledger[i]))
  }

  ghost predicate Verified(h: Hash, ledger: Ledger) {
    forall i :: 0 <= i < |ledger| ==> EntryHolds(h, ledger, i)
  }

  /** `verify_ledger`: none when intact, else the first entry that fails. */
  method VerifyLedger(h: Hash, ledger: Ledger) returns (bad: Option<nat>)
    ensures bad.None? <==> Verified(h, ledger)
    ensures bad.Some? ==> bad.value < |ledger| && !EntryHolds(h, ledger, bad.value)
                          && forall i :: 0 <= i < bad.value ==> EntryHolds(h, ledger, i)
  {
    var expectedPrev: Option<string> := None;
    for index := 0 to |ledger|
      invariant expectedPrev == if index == 0 then None else ledger[index - 1].canonicalHash
      invariant forall i :: 0 <= i < index ==> EntryHolds(h, ledger, i)
    {
      var entry := ledger[index];
      assert EntryHolds(h, ledger, index) <==>
        entry.previousHash == expectedPrev && entry.canonicalHash == Some(ComputeExperimentHash(h, entry));
      if entry.previousHash != expectedPrev {
        return Some(index);
      }
      if entry.canonicalHash != Some(ComputeExperimentHash(h, entry)) {
        return Some(index);
      }
      expectedPrev := entry.canonicalHash;
    }
    bad := None;
  }

  // ------------------------------------------------------------ properties

  ghost predicate DistinctIds(ledger: Ledger) {
    forall i, j :: 0 <= i < j < |ledger| ==> ledger[i].content.experimentId != ledger[j].content.experimentId
  }

  /** The ledger after a run of `register` calls from empty; a call that raises leaves it as it was. */
  function After(h: Hash, calls: seq<Registration>): Ledger {
    if calls == [] then [] else
      var ledger := After(h, calls[..|calls| - 1]);
      match Register(h, ledger, calls[|calls| - 1])
      case Ok(state) => state.0
      case Err(_) => ledger
  }

  ghost predicate Sound(h: Hash, ledger: Ledger) {
    Verified(h, ledger) && DistinctIds(ledger)
  }

  lemma RegisterKeepsSound(h: Hash, ledger: Ledger, r: Registration)
    requires Sound(h, ledger) && Register(h, ledger, r).Ok?
    ensures Sound(h, Register(h, ledger, r).value.0)
    ensures ledger <= Register(h, ledger, r).value.0
    ensures Register(h, ledger, r).value.1 in Register(h, ledger, r).value.0
    ensures Register(h, ledger, r).value.1.content.experimentId == r.content.experimentId
  {
    var (after, stored) := Register(h, ledger, r).value;
    if after != ledger {
      assert after[|ledger|] == stored;
      forall i | 0 <= i < |after| ensures EntryHolds(h, after, i) {
        if i < |ledger| {
          assert EntryHolds(h, ledger, i);
        }
      }
      assert forall i :: 0 <= i < |ledger| ==> ledger[i] in ledger && after[i] == ledger[i];
    }
  }

  /** A new registration is stored as it was given, hashed onto the entry before it, with the fingerprint of its
      content. */
  lemma NewEntryIs(h: Hash, ledger: Ledger, r: Registration)
    requires forall e :: e in ledger ==> e.content.experimentId != r.content.experimentId
    ensures Register(h, ledger, r).Ok?
    ensures var (after, entry) := Register(h, ledger, r).value;
            && after == ledger + [entry]
            && entry.content == r.content
            && entry.previousHash == (if |ledger| > 0 then ledger[|ledger| - 1].canonicalHash else None)
            && entry.canonicalHash == Some(h.link(entry.previousHash, h.content(r.content)))
            && entry.contentFingerprint == Some(h.content(r.content))
  {}

  /** Every ledger reachable by `register` from empty verifies and has unique experiment ids. */
  lemma {:induction false} ReachableLedgerIsSound(h: Hash, calls: seq<Registration>)
    ensures Sound(h, After(h, calls))
  {
    if calls != [] {
      var ledger := After(h, calls[..|calls| - 1]);
      ReachableLedgerIsSound(h, calls[..|calls| - 1]);
      hide Sound;
      if Register(h, ledger, calls[|calls| - 1]).Ok? {
        RegisterKeepsSound(h, ledger, calls[|calls| - 1]);
      }
    }
  }

  /** The ledger only grows, by append. */
  lemma {:induction false} LedgerGrows(h: Hash, calls: seq<Registration>, more: seq<Registration>)
    ensures After(h, calls) <= After(h, calls + more)
    decreases |more|
  {
    if more == [] {
      assert calls + more == calls;
    } else {
      assert (calls + more)[..|calls + more| - 1] == calls + more[..|more| - 1];
      LedgerGrows(h, calls, more[..|more| - 1]);
    }
  }

  /** Registering again, at any later time, content that was once accepted changes nothing and returns the entry stored
      then. */
  lemma ReplayIsANoOp(h: Hash, calls: seq<Registration>, more: seq<Registration>, r: Registration)
    requires CollisionFree(h)
    requires Register(h, After(h, calls), r).Ok?
    ensures var stored := Register(h, After(h, calls), r).value.1;
            var later := After(h, calls + [r] + more);
            Register(h, later, r) == Ok((later, stored))
  {
    var ledger := After(h, calls);
    var (after, stored) := Register(h, ledger, r).value;
    assert (calls + [r])[..|calls|] == calls;
    ReachableLedgerIsSound(h, calls);
    RegisterKeepsSound(h, ledger, r);
    LedgerGrows(h, calls + [r], more);
    ReachableLedgerIsSound(h, calls + [r] + more);
    var later := After(h, calls + [r] + more);
    assert stored in after && after <= later;
    FoundByDistinctId(later, stored);
  }

  lemma FoundByDistinctId(ledger: Ledger, e: Registration)
    requires DistinctIds(ledger) && e in ledger
    ensures Find(ledger, e.content.experimentId) == Some(e)
  {
    var f := Find(ledger, e.content.experimentId).value;
    var i :| 0 <= i < |ledger| && ledger[i] == e;
    var j :| 0 <= j < |ledger| && ledger[j] == f;
    assert !(i < j) && !(j < i);
  }

  /** Content registered under a taken id is refused: a changed design as a violation of preregistration, any other
      change as a conflict. */
  lemma ChangedContentIsRefused(h: Hash, ledger: Ledger, e: Registration, r: Registration)
    requires CollisionFree(h) && DistinctIds(ledger) && e in ledger
    requires e.content.experimentId == r.content.experimentId && e.content != r.content
    ensures Register(h, ledger, r)
         == Err(if e.content.arms == r.content.arms && e.content.metrics == r.content.metrics then Conflict
                else Rejected)
  {
    FoundByDistinctId(ledger, e);
  }

  // --------------------------------------------------- reorder and relink

  /** `forged` is made of entries of the ledger, in any order and number, with their content and canonical hash as they
      were and every previous hash rewritten to fit the new order. */
  ghost predicate Rearranged(ledger: Ledger, forged: Ledger) {
    forall k :: 0 <= k < |forged| ==>
      && forged[k].previousHash == (if k == 0 then None else forged[k - 1].canonicalHash)
      && exists e :: e in ledger && e.content == forged[k].content && e.canonicalHash == forged[k].canonicalHash
  }

  lemma CanonicalHashesDiffer(h: Hash, ledger: Ledger, i: nat, j: nat)
    requires CollisionFree(h) && Sound(h, ledger) && i < |ledger| && j < |ledger|
    requires ledger[i].canonicalHash == ledger[j].canonicalHash
    ensures i == j
  {
    assert EntryHolds(h, ledger, i) && EntryHolds(h, ledger, j);
    assert ledger[i].content == ledger[j].content;
    assert !(i < j) && !(j < i);
  }

  /** Entry `k` of a verified rearrangement is entry `k` of the ledger. */
  lemma {:induction false} RearrangedEntry(h: Hash, ledger: Ledger, forged: Ledger, k: nat)
    requires CollisionFree(h) && Sound(h, ledger)
    requires Rearranged(ledger, forged) && Verified(h, forged)
    requires k < |forged|
    ensures k < |ledger|
    ensures forged[k].content == ledger[k].content && forged[k].canonicalHash == ledger[k].canonicalHash
    ensures forged[k].previousHash == ledger[k].previousHash
    decreases k
  {
    EveryEntryIsHashed(h, ledger);
    var e :| e in ledger && e.content == forged[k].content && e.canonicalHash == forged[k].canonicalHash;
    var j :| 0 <= j < |ledger| && ledger[j] == e;
    assert EntryHolds(h, forged, k) && EntryHolds(h, ledger, j);
    assert forged[k].previousHash == ledger[j].previousHash;
    if k > 0 {
      RearrangedEntry(h, ledger, forged, k - 1);
      assert EntryHolds(h, forged, k - 1);
      assert j > 0;
      CanonicalHashesDiffer(h, ledger, j - 1, k - 1);
    }
  }

  lemma EveryEntryIsHashed(h: Hash, ledger: Ledger)
    requires Verified(h, ledger)
    ensures forall i :: 0 <= i < |ledger| ==> ledger[i].canonicalHash.Some?
  {
    forall i | 0 <= i < |ledger| ensures ledger[i].canonicalHash.Some? {
      assert EntryHolds(h, ledger, i);
    }
  }

  /** Reordering, dropping, repeating or splicing entries of a reachable ledger, with every previous hash relinked and
      every canonical hash reused, verifies only if nothing was moved: the result is a prefix of the ledger in every
      checked field. */
  lemma RelinkedRearrangementFails(h: Hash, calls: seq<Registration>, forged: Ledger)
    requires CollisionFree(h) && Rearranged(After(h, calls), forged)
    ensures Verified(h, forged) ==>
              && |forged| <= |After(h, calls)|
              && forall k :: 0 <= k < |forged| ==>
                   && forged[k].content == After(h, calls)[k].content
                   && forged[k].canonicalHash == After(h, calls)[k].canonicalHash
                   && forged[k].previousHash == After(h, calls)[k].previousHash
  {
    if Verified(h, forged) {
      ReachableLedgerIsSound(h, calls);
      forall k | 0 <= k < |forged|
        ensures k < |After(h, calls)|
        ensures forged[k].content == After(h, calls)[k].content
                && forged[k].canonicalHash == After(h, calls)[k].canonicalHash
        ensures forged[k].previousHash == After(h, calls)[k].previousHash
      {
        RearrangedEntry(h, After(h, calls), forged, k);
      }
      if |forged| > |After(h, calls)| {
        RearrangedEntry(h, After(h, calls), forged, |After(h, calls)|);
      }
    }
  }

  /** Entry `k` is `original` with its previous hash rewritten to the entry now before it, and its canonical hash
      reused. */
  predicate RelinkedAt(forged: Ledger, k: nat, original: Registration)
    requires k < |forged|
  {
    forged[k] == original.(previousHash := if k == 0 then None else forged[k - 1].canonicalHash)
  }

  /** A permutation of a reachable ledger, relinked, verifies only if it is the identity. */
  lemma OnlyTheIdentityPermutationVerifies(h: Hash, calls: seq<Registration>, forged: Ledger, perm: seq<nat>)
    requires CollisionFree(h)
    requires |perm| == |forged| == |After(h, calls)|
    requires forall k :: 0 <= k < |perm| ==> perm[k] < |After(h, calls)|
    requires forall k :: 0 <= k < |perm| ==> RelinkedAt(forged, k, After(h, calls)[perm[k]])
    ensures Verified(h, forged) <==> forall k :: 0 <= k < |perm| ==> perm[k] == k
  {
    var ledger := After(h, calls);
    ReachableLedgerIsSound(h, calls);
    PermutationIsRearranged(ledger, forged, perm);
    if Verified(h, forged) {
      forall k | 0 <= k < |perm| ensures perm[k] == k {
        hide After, Verified, Sound, Rearranged, CollisionFree;
        assert RelinkedAt(forged, k, ledger[perm[k]]);
        RearrangedEntry(h, ledger, forged, k);
        CanonicalHashesDiffer(h, ledger, perm[k], k);
      }
    }
    if forall k :: 0 <= k < |perm| ==> perm[k] == k {
      hide After, Verified, Sound, Rearranged, CollisionFree;
      forall k | 0 <= k < |forged| ensures RelinkedAt(forged, k, ledger[k]) {
        assert RelinkedAt(forged, k, ledger[perm[k]]);
      }
      SoundIsVerified(h, ledger);
      IdentityVerifies(h, ledger, forged);
    }
  }

  lemma SoundIsVerified(h: Hash, ledger: Ledger)
    requires Sound(h, ledger)
    ensures Verified(h, ledger)
  {}

  lemma PermutationIsRearranged(ledger: Ledger, forged: Ledger, perm: seq<nat>)
    requires |perm| == |forged|
    requires forall k :: 0 <= k < |perm| ==> perm[k] < |ledger|
    requires forall k :: 0 <= k < |perm| ==> RelinkedAt(forged, k, ledger[perm[k]])
    ensures Rearranged(ledger, forged)
  {
    forall k | 0 <= k < |forged|
      ensures forged[k].previousHash == (if k == 0 then None else forged[k - 1].canonicalHash)
      ensures exists e :: e in ledger && e.content == forged[k].content && e.canonicalHash == forged[k].canonicalHash
    {
      var e := ledger[perm[k]];
      assert RelinkedAt(forged, k, ledger[perm[k]]);
      assert e in ledger && e.content == forged[k].content && e.canonicalHash == forged[k].canonicalHash;
    }
  }

  lemma IdentityVerifies(h: Hash, ledger: Ledger, forged: Ledger)
    requires Verified(h, ledger) && |forged| == |ledger|
    requires forall k :: 0 <= k < |forged| ==> RelinkedAt(forged, k, ledger[k])
    ensures Verified(h, forged)
  {
    forall k | 0 <= k < |forged| ensures EntryHolds(h, forged, k) {
      assert EntryHolds(h, ledger, k) && RelinkedAt(forged, k, ledger[k]);
      assert k > 0 ==> RelinkedAt(forged, k - 1, ledger[k - 1]);
    }
  }
}
