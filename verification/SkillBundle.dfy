/** The hash that pins a bundle of skill files: path normalisation, the framed manifest, and the gate that checks it. */
module SkillBundle {
  import opened Common
  import opened Decimal
  import opened TextOrder

  newtype byte = x: int | 0 <= x < 256
  type Bytes = seq<byte>

  datatype Error =
    | EmptyPath
    | AbsolutePath
    | EscapesRoot
    | NothingLeft
    | DuplicatePath
    | HashMissing
    | HashMalformed
    | BundleMissing
    | HashMismatch

  /** SHA-256 in hexadecimal, of file contents and of a manifest text. */
  datatype Hash = Hash(content: Bytes -> string, text: string -> string)

  ghost predicate CollisionFree(h: Hash) {
    && (forall a, b :: h.content(a) == h.content(b) ==> a == b)
    && (forall a, b :: h.text(a) == h.text(b) ==> a == b)
  }

  /** The entries of a mapping in the order they were put in; the raw paths differ. */
  type Bundle = seq<(string, Bytes)>

  // ------------------------------------------------------------------ paths

  function Slashed(raw: string): (r: string)
    ensures |r| == |raw|
    ensures forall i :: 0 <= i < |raw| ==> r[i] == if raw[i] == '\\' then '/' else raw[i]
  {
    if raw == "" then "" else [if raw[0] == '\\' then '/' else raw[0]] + Slashed(raw[1..])
  }

  /** `s.split("/")`. */
  function Split(s: string): (r: seq<string>)
    ensures r != []
  {
    if s == "" then [""]
    else
      var r := Split(s[1..]);
      if s[0] == '/' then [""] + r else [[s[0]] + r[0]] + r[1..]
  }

  /** `"/".join(parts)`. */
  function Join(parts: seq<string>): string {
    if parts == [] then ""
    else if |parts| == 1 then parts[0]
    else parts[0] + "/" + Join(parts[1..])
  }

  predicate IsEmptyStep(segment: string) {
    segment == "" || segment == "."
  }

  /** The segments that name something. */
  function Kept(segments: seq<string>): seq<string> {
    if segments == [] then []
    else (if IsEmptyStep(segments[0]) then [] else [segments[0]]) + Kept(segments[1..])
  }

  function Normalized(raw: string): Result<string, Error> {
    var candidate := Slashed(raw);
    if raw == "" then Err(EmptyPath)
    else if candidate[0] == '/' then Err(AbsolutePath)
    else if ".." in Split(candidate) then Err(EscapesRoot)
    else if Kept(Split(candidate)) == [] then Err(NothingLeft)
    else Ok(Join(Kept(Split(candidate))))
  }

  lemma {:induction false} KeptSnoc(segments: seq<string>, i: nat)
    requires i < |segments|
    ensures Kept(segments[..i + 1]) == Kept(segments[..i]) + (if IsEmptyStep(segments[i]) then [] else [segments[i]])
  {
    hide IsEmptyStep;
    if i == 0 {
      assert segments[..1] == [segments[0]];
      assert [segments[0]][1..] == [];
    } else {
      KeptSnoc(segments[1..], i - 1);
      assert segments[..i + 1][1..] == segments[1..][..i];
      assert segments[..i][1..] == segments[1..][..i - 1];
      assert segments[1..][i - 1] == segments[i];
    }
  }

  method NormalizeRelpath(raw: string) returns (r: Result<string, Error>)
    ensures r == Normalized(raw)
  {
    hide Kept, Split, Join, IsEmptyStep;
    if raw == "" {
      return Err(EmptyPath);
    }
    var candidate := Slashed(raw);
    if candidate[0] == '/' {
      return Err(AbsolutePath);
    }
    var parts: seq<string> := [];
    var segments := Split(candidate);
    var i := 0;
    NothingKept(segments);
    while i < |segments|
      invariant 0 <= i <= |segments|
      invariant parts == Kept(segments[..i])
      invariant ".." !in segments[..i]
    {
      var segment := segments[i];
      KeptSnoc(segments, i);
      i := i + 1;
      if IsEmptyStep(segment) {
        EmptyStepIsNoEscape(segment);
        continue;
      }
      if segment == ".." {
        return Err(EscapesRoot);
      }
      parts := parts + [segment];
    }
    assert segments[..i] == segments;
    if parts == [] {
      return Err(NothingLeft);
    }
    r := Ok(Join(parts));
  }

  lemma NothingKept(segments: seq<string>)
    ensures Kept(segments[..0]) == []
  {}

  lemma EmptyStepIsNoEscape(segment: string)
    requires IsEmptyStep(segment)
    ensures segment != ".."
  {}

  // --------------------------------------------------------------- the hash

  /** Bytes of a character in UTF-8. */
  function Utf8Width(c: char): nat {
    if c as int < 0x80 then 1 else if c as int < 0x800 then 2 else if c as int < 0x10000 then 3 else 4
  }

  function Utf8Length(s: string): nat {
    if s == "" then 0 else Utf8Width(s[0]) + Utf8Length(s[1..])
  }

  datatype Entry = Entry(path: string, digest: string)

  function Frame(e: Entry): string {
    Numeral(Utf8Length(e.path)) + ":" + e.path + "\n" + Numeral(|e.digest|) + ":" + e.digest + "\n"
  }

  function Manifest(entries: seq<Entry>): string {
    if entries == [] then "" else Frame(entries[0]) + Manifest(entries[1..])
  }

  /** The files by normalised path, or the error the first bad entry raises. */
  function Tree(bundle: Bundle): Result<map<string, Bytes>, Error> {
    if bundle == [] then Ok(map[])
    else
      var (raw, content) := bundle[|bundle| - 1];
      match Tree(bundle[..|bundle| - 1])
      case Err(e) => Err(e)
      case Ok(tree) =>
        match Normalized(raw)
        case Err(e) => Err(e)
        case Ok(path) => if path in tree then Err(DuplicatePath) else Ok(tree[path := content])
  }

  function Listed(h: Hash, tree: map<string, Bytes>, paths: seq<string>): (r: seq<Entry>)
    requires forall p :: p in paths ==> p in tree
    ensures |r| == |paths|
    ensures forall i :: 0 <= i < |r| ==> r[i] == Entry(paths[i], h.content(tree[paths[i]]))
  {
    if paths == [] then [] else [Entry(paths[0], h.content(tree[paths[0]]))] + Listed(h, tree, paths[1..])
  }

  function ManifestOf(h: Hash, tree: map<string, Bytes>): string {
    Manifest(Listed(h, tree, Sorted(tree.Keys)))
  }

  function BundleHash(h: Hash, bundle: Bundle): Result<string, Error> {
    match Tree(bundle)
    case Err(e) => Err(e)
    case Ok(tree) => Ok("sha256:" + h.text(ManifestOf(h, tree)))
  }

  lemma TreeNext(bundle: Bundle, i: nat)
    requires i < |bundle|
    ensures Tree(bundle[..i + 1]) ==
            match Tree(bundle[..i])
            case Err(e) => Err(e)
            case Ok(tree) =>
              match Normalized(bundle[i].0)
              case Err(e) => Err(e)
              case Ok(path) => if path in tree then Err(DuplicatePath) else Ok(tree[path := bundle[i].1])
  {
    hide Normalized;
    assert bundle[..i + 1][..i] == bundle[..i];
  }

  /** Once an entry is bad, what follows does not matter. */
  lemma {:induction false} BadEntryDecides(bundle: Bundle, i: nat)
    requires i <= |bundle| && Tree(bundle[..i]).Err?
    ensures Tree(bundle) == Tree(bundle[..i])
    decreases |bundle| - i
  {
    hide Normalized;
    if i < |bundle| {
      TreeNext(bundle, i);
      BadEntryDecides(bundle, i + 1);
    } else {
      assert bundle[..i] == bundle;
    }
  }

  lemma {:induction false} ManifestSnoc(entries: seq<Entry>, i: nat)
    requires i < |entries|
    ensures Manifest(entries[..i + 1]) == Manifest(entries[..i]) + Frame(entries[i])
  {
    hide Frame;
    if i == 0 {
      assert entries[..1] == [entries[0]] && [entries[0]][1..] == [];
      assert Manifest([]) == "";
    } else {
      ManifestSnoc(entries[1..], i - 1);
      assert entries[..i + 1][1..] == entries[1..][..i];
      assert entries[..i][1..] == entries[1..][..i - 1];
    }
  }

  method ComputeSkillBundleHash(h: Hash, bundle: Bundle) returns (r: Result<string, Error>)
    ensures r == BundleHash(h, bundle)
  {
    hide *;
    var normalized: map<string, Bytes> := map[];
    var i := 0;
    EmptyTree(bundle);
    while i < |bundle|
      invariant 0 <= i <= |bundle|
      invariant Tree(bundle[..i]) == Ok(normalized)
    {
      var (rawPath, content) := bundle[i];
      TreeNext(bundle, i);
      var norm := NormalizeRelpath(rawPath);
      if norm.Err? {
        BadEntryDecides(bundle, i + 1);
        BadTreeHasNoHash(h, bundle);
        return Err(norm.error);
      }
      if norm.value in normalized {
        BadEntryDecides(bundle, i + 1);
        BadTreeHasNoHash(h, bundle);
        return Err(DuplicatePath);
      }
      normalized := normalized[norm.value := content];
      i := i + 1;
    }
    assert bundle[..i] == bundle;
    var paths := Sorted(normalized.Keys);
    ghost var entries := Listed(h, normalized, paths);
    var manifest := "";
    i := 0;
    EmptyManifest(entries);
    while i < |paths|
      invariant 0 <= i <= |paths|
      invariant manifest == Manifest(entries[..i])
    {
      ManifestSnoc(entries, i);
      manifest := manifest + Frame(Entry(paths[i], h.content(normalized[paths[i]])));
      i := i + 1;
    }
    assert entries[..i] == entries;
    HashIs(h, bundle, normalized);
    r := Ok("sha256:" + h.text(manifest));
  }

  lemma HashIs(h: Hash, bundle: Bundle, tree: map<string, Bytes>)
    requires Tree(bundle) == Ok(tree)
    ensures BundleHash(h, bundle) == Ok("sha256:" + h.text(Manifest(Listed(h, tree, Sorted(tree.Keys)))))
  {}

  lemma BadTreeHasNoHash(h: Hash, bundle: Bundle)
    requires Tree(bundle).Err?
    ensures BundleHash(h, bundle) == Err(Tree(bundle).error)
  {}

  lemma EmptyTree(bundle: Bundle)
    ensures Tree(bundle[..0]) == Ok(map[])
  {}

  lemma EmptyManifest(entries: seq<Entry>)
    ensures Manifest(entries[..0]) == ""
  {}

  // --------------------------------------------------------------- the gate

  predicate IsHex(c: char) {
    '0' <= c <= '9' || 'a' <= c <= 'f'
  }

  predicate WellFormedHash(s: string) {
    "sha256:" <= s && |s| == 71 && forall i :: 7 <= i < |s| ==> IsHex(s[i])
  }

  method RequireWellFormedExpected(expected: Option<string>) returns (r: Result<string, Error>)
    ensures expected == None || expected == Some("") ==> r == Err(HashMissing)
    ensures expected.Some? && expected.value != "" ==>
              r == if WellFormedHash(expected.value) then Ok(expected.value) else Err(HashMalformed)
  {
    if expected == None || expected.value == "" {
      return Err(HashMissing);
    }
    var text := expected.value;
    if !("sha256:" <= text) {
      return Err(HashMalformed);
    }
    var hexpart := text[|"sha256:"|..];
    assert forall i :: 7 <= i < |text| ==> text[i] == hexpart[i - 7];
    if |hexpart| != 64 || exists i :: 0 <= i < |hexpart| && !IsHex(hexpart[i]) {
      assert |hexpart| == 64 ==> exists i :: 7 <= i < |text| && !IsHex(text[i]) by {
        if |hexpart| == 64 {
          var i :| 0 <= i < |hexpart| && !IsHex(hexpart[i]);
          assert text[i + 7] == hexpart[i];
        }
      }
      return Err(HashMalformed);
    }
    r := Ok(text);
  }

  method VerifySkillBundle(h: Hash, expected: Option<string>, bundle: Option<Bundle>) returns (r: Result<string, Error>)
    ensures r.Ok? <==>
              expected.Some? && bundle.Some? && WellFormedHash(expected.value)
              && BundleHash(h, bundle.value) == Ok(expected.value)
    ensures r.Ok? ==> r.value == expected.value
    ensures expected == None || expected == Some("") ==> r == Err(HashMissing)
    ensures expected.Some? && expected.value != "" && !WellFormedHash(expected.value) ==> r == Err(HashMalformed)
    ensures expected.Some? && WellFormedHash(expected.value) ==>
              if bundle == None then r == Err(BundleMissing)
              else match BundleHash(h, bundle.value)
                   case Err(e) => r == Err(e)
                   case Ok(actual) => r == if actual == expected.value then Ok(actual) else Err(HashMismatch)
  {
    hide WellFormedHash, BundleHash;
    EmptyIsMalformed();
    var wanted := RequireWellFormedExpected(expected);
    if wanted.Err? {
      return wanted;
    }
    if bundle == None {
      return Err(BundleMissing);
    }
    var actual := ComputeSkillBundleHash(h, bundle.value);
    if actual.Ok? && actual.value != wanted.value {
      return Err(HashMismatch);
    }
    r := actual;
  }

  lemma EmptyIsMalformed()
    ensures !WellFormedHash("")
  {}
}
