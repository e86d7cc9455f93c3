/** Laws of the bundle hash: one spelling per file, a manifest that decodes uniquely, and a pin that fixes the whole
    tree. */
module SkillBundleLaws {
  import opened Decimal
  import opened TextOrder
  import opened SkillBundle

  // ------------------------------------------------------------------ paths

  lemma {:induction false} KeptIs(segments: seq<string>)
    ensures forall p :: p in Kept(segments) <==> p in segments && !IsEmptyStep(p)
  {
    hide IsEmptyStep;
    if segments != [] {
      KeptIs(segments[1..]);
      assert segments == [segments[0]] + segments[1..];
    }
  }

  lemma {:induction false} KeptTwice(segments: seq<string>)
    requires forall p :: p in segments ==> !IsEmptyStep(p)
    ensures Kept(segments) == segments
  {
    hide IsEmptyStep;
    if segments != [] {
      assert segments == [segments[0]] + segments[1..];
      KeptTwice(segments[1..]);
    }
  }

  lemma {:induction false} PartOfSplit(s: string, p: string)
    requires p in Split(s)
    ensures forall c :: c in p ==> c in s && c != '/'
  {
    if s != "" {
      var r := Split(s[1..]);
      assert r == [r[0]] + r[1..];
      if p in r {
        PartOfSplit(s[1..], p);
      } else if s[0] != '/' {
        PartOfSplit(s[1..], r[0]);
        assert p == [s[0]] + r[0];
      }
    }
  }

  lemma SplitOfStep(p: string, rest: string)
    requires '/' !in p
    ensures Split(p + "/" + rest) == [p] + Split(rest)
  {
    if p == "" {
      assert (p + "/" + rest)[1..] == rest;
    } else {
      assert (p + "/" + rest)[1..] == p[1..] + "/" + rest;
      SplitOfStep(p[1..], rest);
      assert ([p[1..]] + Split(rest))[1..] == Split(rest);
      assert p == [p[0]] + p[1..];
    }
  }

  lemma SplitOfName(p: string)
    requires '/' !in p
    ensures Split(p) == [p]
  {
    if p != "" {
      SplitOfName(p[1..]);
      assert p == [p[0]] + p[1..];
    }
  }

  /** Splitting undoes joining. */
  lemma {:induction false} SplitOfJoin(parts: seq<string>)
    requires parts != [] && forall p :: p in parts ==> '/' !in p
    ensures Split(Join(parts)) == parts
  {
    hide Split;
    if |parts| == 1 {
      SplitOfName(parts[0]);
    } else {
      SplitOfJoin(parts[1..]);
      SplitOfStep(parts[0], Join(parts[1..]));
    }
  }

  lemma {:induction false} JoinOnlyAddsSlashes(parts: seq<string>)
    ensures forall c :: c in Join(parts) ==> c == '/' || exists p :: p in parts && c in p
  {
    if |parts| == 1 {
      assert parts[0] in parts;
    } else if |parts| > 1 {
      JoinOnlyAddsSlashes(parts[1..]);
      forall c | c in Join(parts) && c != '/'
        ensures exists p :: p in parts && c in p
      {
        if c in parts[0] {
          assert parts[0] in parts;
        } else {
          assert c in Join(parts[1..]);
          var p :| p in parts[1..] && c in p;
          assert p in parts;
        }
      }
    }
  }

  lemma {:induction false} SlashedLeaves(s: string)
    requires '\\' !in s
    ensures Slashed(s) == s
  {
    if s != "" { SlashedLeaves(s[1..]); }
  }

  /** What an accepted path is made of: real names only, no way up, no backslash, nothing absolute. */
  lemma NormalizedIsClean(raw: string)
    requires Normalized(raw).Ok?
    ensures var n := Normalized(raw).value;
            && Split(n) == Kept(Split(Slashed(raw)))
            && (forall p :: p in Split(n) ==> p != "" && p != "." && p != "..")
            && '\\' !in n && n != "" && n[0] != '/'
  {
    hide Split, Kept, Join, Slashed;
    var candidate := Slashed(raw);
    var parts := Kept(Split(candidate));
    var n := Join(parts);
    KeptIs(Split(candidate));
    forall p | p in parts
      ensures '/' !in p && '\\' !in p
    {
      PartOfSplit(candidate, p);
      NoBackslash(raw);
    }
    assert parts[0] in parts;
    SplitOfJoin(parts);
    JoinOnlyAddsSlashes(parts);
    JoinStarts(parts);
  }

  lemma NoBackslash(raw: string)
    ensures '\\' !in Slashed(raw)
  {}

  lemma JoinStarts(parts: seq<string>)
    requires parts != [] && parts[0] != ""
    ensures Join(parts) != "" && Join(parts)[0] == parts[0][0]
  {}

  /** Normalising a normalised path changes nothing. */
  lemma NormalizedIsIdempotent(raw: string)
    requires Normalized(raw).Ok?
    ensures Normalized(Normalized(raw).value) == Normalized(raw)
  {
    hide Split, Kept, Join;
    var n := Normalized(raw).value;
    var parts := Kept(Split(Slashed(raw)));
    NormalizedIsClean(raw);
    SlashedLeaves(n);
    KeptTwice(parts);
  }

  /** Two accepted spellings are the same file exactly when they name the same steps. */
  lemma SameFileIffSameSteps(a: string, b: string)
    requires Normalized(a).Ok? && Normalized(b).Ok?
    ensures Normalized(a) == Normalized(b) <==> Kept(Split(Slashed(a))) == Kept(Split(Slashed(b)))
  {
    hide Split, Kept, Join, Slashed;
    NormalizedIsClean(a);
    NormalizedIsClean(b);
  }

  // --------------------------------------------------------------- manifest

  lemma DigitsEndAtColon(x: string, a: string, y: string, b: string)
    requires forall c :: c in x ==> IsDigit(c)
    requires x + ":" + a == y + ":" + b
    ensures |x| <= |y|
  {
    var s := x + ":" + a;
    forall i | 0 <= i < |x|
      ensures IsDigit(s[i])
    {
      assert s[i] == x[i] && x[i] in x;
    }
    assert s[|y|] == (y + ":" + b)[|y|] == ':';
  }

  /** A numeral and the colon after it can be read off the front of a text in one way only. */
  lemma LengthFieldReadsBack(m: nat, n: nat, a: string, b: string)
    requires Numeral(m) + ":" + a == Numeral(n) + ":" + b
    ensures m == n && a == b
  {
    var x, y := Numeral(m), Numeral(n);
    var s, t := x + ":" + a, y + ":" + b;
    DigitsEndAtColon(x, a, y, b);
    DigitsEndAtColon(y, b, x, a);
    assert x == s[..|x|] && y == t[..|y|];
    assert a == s[|x| + 1..] && b == t[|y| + 1..];
    NumeralInjective(m, n);
  }

  /** A path of known UTF-8 length can be read off the front of a text in one way only. */
  lemma {:induction false} PathReadsBack(p: string, q: string, a: string, b: string)
    requires Utf8Length(p) == Utf8Length(q) && p + a == q + b
    ensures p == q && a == b
    decreases |p|
  {
    hide Utf8Width;
    Utf8Wide(p);
    Utf8Wide(q);
    if p == "" {
      assert p + a == a && q + b == b;
    } else {
      assert q != "" ;
      assert (p + a)[0] == p[0] && (q + b)[0] == q[0];
      assert (p + a)[1..] == p[1..] + a && (q + b)[1..] == q[1..] + b;
      PathReadsBack(p[1..], q[1..], a, b);
      assert p == [p[0]] + p[1..] && q == [q[0]] + q[1..];
    }
  }

  lemma Utf8Wide(s: string)
    ensures s != "" ==> Utf8Length(s) > 0
  {}

  lemma FrameReadsBack(d: Entry, e: Entry, a: string, b: string)
    requires Frame(d) + a == Frame(e) + b
    ensures d == e && a == b
  {
    hide Utf8Length, Numeral;
    var digestD, digestE := Numeral(|d.digest|) + ":" + (d.digest + "\n" + a),
        Numeral(|e.digest|) + ":" + (e.digest + "\n" + b);
    assert Frame(d) + a == Numeral(Utf8Length(d.path)) + ":" + (d.path + ("\n" + digestD));
    assert Frame(e) + b == Numeral(Utf8Length(e.path)) + ":" + (e.path + ("\n" + digestE));
    LengthFieldReadsBack(Utf8Length(d.path), Utf8Length(e.path), d.path + ("\n" + digestD), e.path + ("\n" + digestE));
    PathReadsBack(d.path, e.path, "\n" + digestD, "\n" + digestE);
    assert digestD == ("\n" + digestD)[1..] && digestE == ("\n" + digestE)[1..];
    LengthFieldReadsBack(|d.digest|, |e.digest|, d.digest + "\n" + a, e.digest + "\n" + b);
    var s, t := d.digest + "\n" + a, e.digest + "\n" + b;
    assert d.digest == s[..|d.digest|] && e.digest == t[..|e.digest|];
    assert a == s[|d.digest| + 1..] && b == t[|e.digest| + 1..];
  }

  lemma FrameIsNotEmpty(e: Entry)
    ensures Frame(e) != ""
  {}

  /** The manifest decodes uniquely, whatever characters the paths hold. */
  lemma {:induction false} ManifestDecodes(a: seq<Entry>, b: seq<Entry>)
    requires Manifest(a) == Manifest(b)
    ensures a == b
  {
    hide Frame;
    if a != [] && b != [] {
      FrameReadsBack(a[0], b[0], Manifest(a[1..]), Manifest(b[1..]));
      ManifestDecodes(a[1..], b[1..]);
      assert a == [a[0]] + a[1..] && b == [b[0]] + b[1..];
    } else if a != [] {
      FrameIsNotEmpty(a[0]);
    } else if b != [] {
      FrameIsNotEmpty(b[0]);
    }
  }

  // ----------------------------------------------------------------- bundles

  function PathOf(entry: (string, Bytes)): string {
    if Normalized(entry.0).Ok? then Normalized(entry.0).value else ""
  }

  function Paths(bundle: Bundle): set<string> {
    set entry | entry in bundle :: PathOf(entry)
  }

  ghost predicate AllNormalize(bundle: Bundle) {
    forall entry :: entry in bundle ==> Normalized(entry.0).Ok?
  }

  lemma PathsSnoc(bundle: Bundle)
    requires bundle != []
    ensures Paths(bundle) == Paths(bundle[..|bundle| - 1]) + {PathOf(bundle[|bundle| - 1])}
    ensures AllNormalize(bundle) <==> AllNormalize(bundle[..|bundle| - 1]) && Normalized(bundle[|bundle| - 1].0).Ok?
  {
    hide PathOf, Normalized;
    var init, last := bundle[..|bundle| - 1], bundle[|bundle| - 1];
    assert bundle == init + [last];
    assert forall entry :: entry in bundle <==> entry in init || entry == last;
  }

  /** A bundle is accepted exactly when every path is, and no two entries name the same file; then it is the tree of its
      entries. */
  lemma {:induction false} TreeIs(bundle: Bundle)
    ensures |Paths(bundle)| <= |bundle|
    ensures Tree(bundle).Ok? <==> AllNormalize(bundle) && |Paths(bundle)| == |bundle|
    ensures Tree(bundle).Ok? ==>
              && Tree(bundle).value.Keys == Paths(bundle)
              && forall entry :: entry in bundle ==>
                                   PathOf(entry) in Tree(bundle).value
                                   && Tree(bundle).value[PathOf(entry)] == entry.1
    decreases |bundle|
  {
    hide Normalized, Paths, AllNormalize;
    if bundle == [] {
      NoPaths();
    } else {
      var init, last := bundle[..|bundle| - 1], bundle[|bundle| - 1];
      TreeIs(init);
      PathsSnoc(bundle);
      assert forall entry :: entry in bundle <==> entry in init || entry == last by { assert bundle == init + [last]; }
    }
  }

  lemma NoPaths()
    ensures Paths([]) == {} && AllNormalize([])
  {}

  /** The order in which entries were put into the mapping does not matter. */
  lemma InsertionOrderDoesNotMatter(h: Hash, a: Bundle, b: Bundle)
    requires multiset(a) == multiset(b) && Tree(a).Ok?
    ensures Tree(b) == Tree(a) && BundleHash(h, b) == BundleHash(h, a)
  {
    hide Normalized, PathOf;
    assert forall entry :: entry in a <==> entry in multiset(a);
    assert forall entry :: entry in b <==> entry in multiset(b);
    assert |a| == |multiset(a)| && |b| == |multiset(b)|;
    TreeIs(a);
    TreeIs(b);
    assert Paths(a) == Paths(b);
    var s, t := Tree(a).value, Tree(b).value;
    forall p | p in s
      ensures t[p] == s[p]
    {
      var entry :| entry in a && p == PathOf(entry);
      assert entry in b;
    }
    assert s == t;
  }

  lemma ListedTellsTree(h: Hash, s: map<string, Bytes>, t: map<string, Bytes>, ps: seq<string>, qs: seq<string>)
    requires CollisionFree(h)
    requires (forall p :: p in ps <==> p in s) && (forall q :: q in qs <==> q in t)
    requires Listed(h, s, ps) == Listed(h, t, qs)
    ensures s == t
  {
    hide Listed;
    var a, b := Listed(h, s, ps), Listed(h, t, qs);
    forall i | 0 <= i < |ps|
      ensures ps[i] == qs[i] && s[ps[i]] == t[qs[i]]
    {
      assert a[i] == b[i];
    }
    assert ps == qs;
    forall p | p in s
      ensures p in t && s[p] == t[p]
    {
      assert p in ps;
    }
  }

  /** Two accepted bundles have the same hash exactly when they hold the same files under the same normalised paths. */
  lemma SameHashIffSameTree(h: Hash, a: Bundle, b: Bundle)
    requires CollisionFree(h) && Tree(a).Ok? && Tree(b).Ok?
    ensures BundleHash(h, a) == BundleHash(h, b) <==> Tree(a) == Tree(b)
  {
    hide Tree, Listed, Manifest;
    var s, t := Tree(a).value, Tree(b).value;
    if BundleHash(h, a) == BundleHash(h, b) {
      var x, y := h.text(ManifestOf(h, s)), h.text(ManifestOf(h, t));
      assert "sha256:" + x == "sha256:" + y;
      assert x == ("sha256:" + x)[7..] && y == ("sha256:" + y)[7..];
      ManifestDecodes(Listed(h, s, Sorted(s.Keys)), Listed(h, t, Sorted(t.Keys)));
      ListedTellsTree(h, s, t, Sorted(s.Keys), Sorted(t.Keys));
    }
  }
}
