/**
 * The evidence bundle's position-committing chain: each commitment folds in the one before, the entry's own hash and
 * the entry's index. SHA-256 over canonical JSON is a pair of functions assumed free of collisions.
 */
module EvidenceManifest {
  import opened Common

  datatype Entry = Entry(kind: string, uri: string, contentHash: string, metadata: string)

  datatype Hash = Hash(entry: Entry -> string, link: (Option<string>, string, nat) -> string)

  ghost predicate CollisionFree(h: Hash) {
    && (forall a, b :: h.entry(a) == h.entry(b) ==> a == b)
    && (forall p, e, i, q, f, j :: h.link(p, e, i) == h.link(q, f, j) ==> p == q && e == f && i == j)
  }

  /** `GENESIS` */
  const GENESIS: Option<string> := None

  // ----------------------------------------------------------------- chain

  function Commitments(h: Hash, entries: seq<Entry>): (cs: seq<string>)
    ensures |cs| == |entries|
  {
    if entries == [] then [] else
      var earlier := Commitments(h, entries[..|entries| - 1]);
      earlier + [h.link(LastOf(earlier), h.entry(entries[|entries| - 1]), |entries| - 1)]
  }

  function LastOf(cs: seq<string>): Option<string> {
    if cs == [] then GENESIS else Some(cs[|cs| - 1])
  }

  /** `compute_entry_commitments` */
  method ComputeEntryCommitments(h: Hash, entries: seq<Entry>) returns (commitments: seq<string>)
    ensures commitments == Commitments(h, entries)
  {
    commitments := [];
    var prev := GENESIS;
    for index := 0 to |entries|
      invariant commitments == Commitments(h, entries[..index])
      invariant prev == LastOf(commitments)
    {
      assert entries[..index + 1][..index] == entries[..index];
      var commitment := h.link(prev, h.entry(entries[index]), index);
      commitments := commitments + [commitment];
      prev := Some(commitment);
    }
    assert entries[..|entries|] == entries;
  }

  datatype Manifest = Manifest(entries: seq<Entry>, commitments: seq<string>, head: Option<string>)

  /** `seal` */
  function Seal(h: Hash, entries: seq<Entry>): Manifest {
    Manifest(entries, Commitments(h, entries), LastOf(Commitments(h, entries)))
  }

  // ---------------------------------------------------------- verification

  /** A verdict of `verify_manifest`: intact, or the first index at which the recomputed and the sealed chain part. */
  datatype Verdict = Intact | Diverges(index: nat) | HeadForged

  /** What each verdict says. Exactly one holds. */
  ghost predicate Says(h: Hash, m: Manifest, v: Verdict) {
    var recomputed := Commitments(h, m.entries);
    match v
    case Intact => recomputed == m.commitments && m.head == LastOf(recomputed)
    case HeadForged => recomputed == m.commitments && m.head != LastOf(recomputed)
    case Diverges(i) =>
      && i <= |recomputed| && i <= |m.commitments|
      && recomputed[..i] == m.commitments[..i]
      && (if i < |recomputed| && i < |m.commitments| then recomputed[i] != m.commitments[i]
          else |recomputed| != |m.commitments|)
  }

  lemma VerdictIsUnique(h: Hash, m: Manifest, v: Verdict, w: Verdict)
    requires Says(h, m, v) && Says(h, m, w)
    ensures v == w
  {
    var recomputed := Commitments(h, m.entries);
    if v.Diverges? && w.Diverges? {
      PrefixAgrees(recomputed, m.commitments, v.index);
      PrefixAgrees(recomputed, m.commitments, w.index);
    }
  }

  lemma PrefixAgrees<T>(a: seq<T>, b: seq<T>, n: nat)
    requires n <= |a| && n <= |b| && a[..n] == b[..n]
    ensures forall k :: 0 <= k < n ==> a[k] == b[k]
  {
    assert forall k :: 0 <= k < n ==> a[k] == a[..n][k] && b[k] == b[..n][k];
  }

  /** `verify_manifest` */
  method VerifyManifest(h: Hash, m: Manifest) returns (v: Verdict)
    ensures Says(h, m, v)
  {
    var recomputed := ComputeEntryCommitments(h, m.entries);
    var sealed := m.commitments;
    if recomputed == sealed && LastOf(recomputed) == m.head {
      return Intact;
    }
    var shorter := if |recomputed| <= |sealed| then |recomputed| else |sealed|;
    for index := 0 to shorter
      invariant recomputed[..index] == sealed[..index]
    {
      if recomputed[index] != sealed[index] {
        return Diverges(index);
      }
    }
    if |recomputed| != |sealed| {
      return Diverges(shorter);
    }
    assert recomputed == recomputed[..shorter] && sealed == sealed[..shorter];
    v := HeadForged;
  }

  // ------------------------------------------------------------ properties

  lemma {:induction false} CommitmentsAt(h: Hash, entries: seq<Entry>, i: nat)
    requires i < |entries|
    ensures Commitments(h, entries)[i] == h.link(LastOf(Commitments(h, entries)[..i]), h.entry(entries[i]), i)
  {
    var earlier := Commitments(h, entries[..|entries| - 1]);
    if i < |entries| - 1 {
      CommitmentsAt(h, entries[..|entries| - 1], i);
      assert Commitments(h, entries)[..i] == earlier[..i];
    } else {
      assert Commitments(h, entries)[..i] == earlier;
    }
  }

  /** The length of the longest common prefix. */
  function CommonPrefix<T(==)>(a: seq<T>, b: seq<T>): (n: nat)
    ensures n <= |a| && n <= |b| && a[..n] == b[..n]
    ensures n < |a| && n < |b| ==> a[n] != b[n]
  {
    if a == [] || b == [] || a[0] != b[0] then 0 else
      var n := CommonPrefix(a[1..], b[1..]);
      assert a[..n + 1] == [a[0]] + a[1..][..n] && b[..n + 1] == [b[0]] + b[1..][..n];
      n + 1
  }

  lemma {:induction false} SamePrefixSameCommitments(h: Hash, a: seq<Entry>, b: seq<Entry>, n: nat)
    requires n <= |a| && n <= |b| && a[..n] == b[..n]
    ensures Commitments(h, a)[..n] == Commitments(h, b)[..n]
  {
    if n > 0 {
      assert a[..n - 1] == a[..n][..n - 1] && b[..n - 1] == b[..n][..n - 1];
      SamePrefixSameCommitments(h, a, b, n - 1);
      CommitmentsAt(h, a, n - 1);
      CommitmentsAt(h, b, n - 1);
      assert a[n - 1] == a[..n][n - 1] && b[n - 1] == b[..n][n - 1];
      var ca, cb := Commitments(h, a), Commitments(h, b);
      assert ca[..n] == ca[..n - 1] + [ca[n - 1]] && cb[..n] == cb[..n - 1] + [cb[n - 1]];
    }
  }

  /** A chain sealed for some entries and checked against any other entries (tampered, reordered, spliced, extended or
      cut, with any head) is reported to diverge exactly at the end of their longest common prefix. */
  lemma TamperIsLocalised(h: Hash, original: seq<Entry>, m: Manifest, v: Verdict)
    requires CollisionFree(h) && m.commitments == Commitments(h, original)
    requires Says(h, m, v)
    ensures m.entries != original ==> v == Diverges(CommonPrefix(original, m.entries))
    ensures m.entries == original ==> v == if m.head == LastOf(m.commitments) then Intact else HeadForged
  {
    if m.entries != original {
      var n := CommonPrefix(original, m.entries);
      SamePrefixSameCommitments(h, original, m.entries, n);
      if n < |original| && n < |m.entries| {
        CommitmentsAt(h, original, n);
        CommitmentsAt(h, m.entries, n);
        assert h.entry(original[n]) != h.entry(m.entries[n]);
      } else {
        assert |original| != |m.entries| by {
          assert original[..|original|] == original && m.entries[..|m.entries|] == m.entries;
        }
      }
      assert Says(h, m, Diverges(n));
      VerdictIsUnique(h, m, v, Diverges(n));
    } else {
      VerdictIsUnique(h, m, v, if m.head == LastOf(m.commitments) then Intact else HeadForged);
    }
  }

  /** Sealed manifests verify. */
  lemma SealedIsIntact(h: Hash, entries: seq<Entry>, v: Verdict)
    requires Says(h, Seal(h, entries), v)
    ensures v == Intact
  {
    VerdictIsUnique(h, Seal(h, entries), v, Intact);
  }

  /** Two sealed manifests with the same head have the same entries, and so the same length. */
  lemma {:induction false} HeadDeterminesEntries(h: Hash, a: seq<Entry>, b: seq<Entry>)
    requires CollisionFree(h)
    requires LastOf(Commitments(h, a)) == LastOf(Commitments(h, b))
    ensures a == b
  {
    if a != [] && b != [] {
      var i, j := |a| - 1, |b| - 1;
      var p, q := Commitments(h, a[..i]), Commitments(h, b[..j]);
      LinkDetermines(h, LastOf(p), a[i], i, LastOf(q), b[j], j);
      hide CollisionFree;
      HeadDeterminesEntries(h, a[..i], b[..j]);
      assert a == a[..i] + [a[i]] && b == b[..j] + [b[j]];
    }
  }

  lemma LinkDetermines(h: Hash, p: Option<string>, a: Entry, i: nat, q: Option<string>, b: Entry, j: nat)
    requires CollisionFree(h) && h.link(p, h.entry(a), i) == h.link(q, h.entry(b), j)
    ensures p == q && a == b && i == j
  {}
}
