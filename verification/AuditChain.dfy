/** The audit hash chain: guarded append, and verification of a whole chain. */
module AuditChain {
  import opened Common

  /** An entry: the fields its hash commits to, its own hash, and the hash it links to. */
  datatype Entry = Entry(fields: string, eventHash: string, prevEventHash: Option<string>)

  /** `compute_entry_hash`: SHA-256 over the canonical JSON of the fields and the previous hash. */
  type Hash = (string, Option<string>) -> string

  ghost predicate CollisionFree(h: Hash) {
    forall f, p, g, q :: h(f, p) == h(g, q) ==> f == g && p == q
  }

  datatype Error = NotLinked | HashMismatch

  function TailHash(chain: seq<Entry>): Option<string> {
    if chain == [] then None else Some(chain[|chain| - 1].eventHash)
  }

  /** `build_entry`, after its guards: an entry hashed onto `prev`. */
  function BuildEntry(h: Hash, fields: string, prev: Option<string>): Entry {
    Entry(fields, h(fields, prev), prev)
  }

  /** `append_entry` */
  function AppendEntry(h: Hash, chain: seq<Entry>, entry: Entry): Result<seq<Entry>, Error> {
    if entry.prevEventHash != TailHash(chain) then Err(NotLinked)
    else if h(entry.fields, entry.prevEventHash) != entry.eventHash then Err(HashMismatch)
    else Ok(chain + [entry])
  }

  /** Appending the entries one after the other, from an empty chain. */
  function AppendAll(h: Hash, entries: seq<Entry>): Result<seq<Entry>, Error> {
    if entries == [] then Ok([]) else
      match AppendAll(h, entries[..|entries| - 1])
      case Err(e) => Err(e)
      case Ok(chain) => AppendEntry(h, chain, entries[|entries| - 1])
  }

  /** An entry appends exactly when it links to the last one and is hashed with that link; a built entry always does. */
  lemma AppendsIff(h: Hash, chain: seq<Entry>, entry: Entry, fields: string)
    ensures var tail := if |chain| > 0 then Some(chain[|chain| - 1].eventHash) else None;
            && (AppendEntry(h, chain, entry).Ok? <==>
                  entry.prevEventHash == tail && entry.eventHash == h(entry.fields, tail))
            && (AppendEntry(h, chain, entry).Ok? ==> AppendEntry(h, chain, entry).value == chain + [entry])
            && (AppendEntry(h, chain, entry) == Err(NotLinked) <==> entry.prevEventHash != tail)
            && AppendEntry(h, chain, BuildEntry(h, fields, tail)).Ok?
            && BuildEntry(h, fields, tail) == Entry(fields, h(fields, tail), tail)
  {}

  /** `verify_chain`: none when intact, else the first entry that fails. Entry `i` fails exactly when the entries before
      it fold into a chain by `append_entry` and it does not append. */
  method VerifyChain(h: Hash, entries: seq<Entry>) returns (bad: Option<nat>)
    ensures bad.None? <==> AppendAll(h, entries).Ok?
    ensures bad.Some? ==>
              bad.value < |entries| && AppendAll(h, entries[..bad.value]).Ok?
              && AppendAll(h, entries[..bad.value + 1]).Err?
  {
    var expectedPrev: Option<string> := None;
    for index := 0 to |entries|
      invariant AppendAll(h, entries[..index]) == Ok(entries[..index])
      invariant expectedPrev == TailHash(entries[..index])
    {
      var entry := entries[index];
      assert entries[..index + 1][..index] == entries[..index];
      assert entries[..index + 1] == entries[..index] + [entry];
      if entry.prevEventHash != expectedPrev || h(entry.fields, entry.prevEventHash) != entry.eventHash {
        AcceptedPrefix(h, entries, index + 1);
        return Some(index);
      }
      expectedPrev := Some(entry.eventHash);
    }
    assert entries[..|entries|] == entries;
    bad := None;
  }

  /** Every prefix of an accepted list is accepted, and folds into itself. */
  lemma {:induction false} AcceptedPrefix(h: Hash, entries: seq<Entry>, n: nat)
    requires n <= |entries|
    ensures AppendAll(h, entries).Ok? ==> AppendAll(h, entries[..n]).Ok?
    ensures AppendAll(h, entries).Ok? ==> AppendAll(h, entries) == Ok(entries)
    decreases |entries|
  {
    if entries != [] {
      var earlier := entries[..|entries| - 1];
      assert entries == earlier + [entries[|entries| - 1]];
      if n < |entries| {
        AcceptedPrefix(h, earlier, n);
        assert earlier[..n] == entries[..n];
      } else {
        AcceptedPrefix(h, earlier, |earlier|);
        assert entries[..n] == entries;
      }
    } else {
      assert entries[..n] == [];
    }
  }

  /** The failing index is the length of the longest accepted prefix. */
  lemma FailingIndexIsLongestPrefix(h: Hash, entries: seq<Entry>, bad: nat, n: nat)
    requires bad < |entries| && AppendAll(h, entries[..bad]).Ok? && AppendAll(h, entries[..bad + 1]).Err?
    requires n <= |entries|
    ensures AppendAll(h, entries[..n]).Ok? <==> n <= bad
  {
    if n <= bad {
      AcceptedPrefix(h, entries[..bad], n);
      assert entries[..bad][..n] == entries[..n];
    } else {
      AcceptedPrefix(h, entries[..n], bad + 1);
      assert entries[..n][..bad + 1] == entries[..bad + 1];
    }
  }

  /** Two verified chains with the same tail hash are the same chain, and so of the same length. */
  lemma {:induction false} TailDeterminesChain(h: Hash, a: seq<Entry>, b: seq<Entry>)
    requires CollisionFree(h) && AppendAll(h, a).Ok? && AppendAll(h, b).Ok?
    requires TailHash(a) == TailHash(b)
    ensures a == b
    decreases |a|
  {
    if a != [] && b != [] {
      var x, y := a[|a| - 1], b[|b| - 1];
      var earlierA, earlierB := a[..|a| - 1], b[..|b| - 1];
      AcceptedPrefix(h, earlierA, |earlierA|);
      AcceptedPrefix(h, earlierB, |earlierB|);
      LinkDetermines(h, x, y);
      hide CollisionFree;
      TailDeterminesChain(h, earlierA, earlierB);
      assert a == earlierA + [x] && b == earlierB + [y];
    }
  }

  lemma LinkDetermines(h: Hash, x: Entry, y: Entry)
    requires CollisionFree(h) && h(x.fields, x.prevEventHash) == h(y.fields, y.prevEventHash)
    ensures x.fields == y.fields && x.prevEventHash == y.prevEventHash
  {}

  /** Changing any entry of a verified chain so that the chain still verifies changes its tail hash. */
  lemma TamperChangesTheTail(h: Hash, chain: seq<Entry>, tampered: seq<Entry>)
    requires CollisionFree(h) && AppendAll(h, chain).Ok? && AppendAll(h, tampered).Ok? && chain != tampered
    ensures TailHash(chain) != TailHash(tampered)
  {
    if TailHash(chain) == TailHash(tampered) {
      TailDeterminesChain(h, chain, tampered);
    }
  }

  /** The reference in-memory chain. */
  class InMemoryAuditChain {
    const h: Hash
    var entries: seq<Entry>

    ghost predicate Valid()
      reads this
    {
      AppendAll(h, entries) == Ok(entries)
    }

    constructor (h: Hash)
      ensures Valid() && this.h == h && entries == []
    {
      this.h := h;
      entries := [];
    }

    /** `append`: an entry hashed onto the tail always appends; nothing before it changes. */
    method Append(fields: string) returns (entry: Entry)
      requires Valid()
      modifies this
      ensures Valid()
      ensures entry.fields == fields && entry.prevEventHash == TailHash(old(entries))
      ensures entry.eventHash == h(fields, entry.prevEventHash)
      ensures entries == old(entries) + [entry]
    {
      entry := BuildEntry(h, fields, TailHash(entries));
      assert (entries + [entry])[..|entries|] == entries;
      entries := AppendEntry(h, entries, entry).value;
    }

    /** `verify` never fails on a chain built by `append`. */
    method Verify() returns (bad: Option<nat>)
      requires Valid()
      ensures bad.None?
    {
      bad := VerifyChain(h, entries);
    }
  }
}
