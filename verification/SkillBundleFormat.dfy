/** The format of the pin: what a path becomes from the steps it is written with, and the text that is hashed. */
module SkillBundleFormat {
  import opened Common
  import opened Decimal
  import opened TextOrder
  import opened SkillBundle
  import opened SkillBundleLaws

  // ------------------------------------------------------------------- paths

  /** The steps between slashes, where a backslash is a slash too. */
  ghost predicate WrittenAs(raw: string, steps: seq<string>) {
    && steps != [] && (forall p :: p in steps ==> '/' !in p)
    && |Join(steps)| == |raw|
    && forall i :: 0 <= i < |raw| ==> Join(steps)[i] == (if raw[i] == '\\' then '/' else raw[i])
  }

  predicate NamesNothing(step: string) {
    step == "" || step == "."
  }

  /** The steps that name something, in order. */
  function Names(steps: seq<string>): seq<string> {
    if steps == [] then []
    else Names(steps[..|steps| - 1])
         + (if NamesNothing(steps[|steps| - 1]) then [] else [steps[|steps| - 1]])
  }

  lemma {:induction false} NamesAreKept(steps: seq<string>)
    ensures Names(steps) == Kept(steps)
  {
    if steps != [] {
      var init := steps[..|steps| - 1];
      NamesAreKept(init);
      KeptSnoc(steps, |steps| - 1);
      assert steps[..|steps|] == steps;
      hide Kept;
    }
  }

  /** Joining puts one slash between steps. */
  lemma {:induction false} JoinOneMore(steps: seq<string>, step: string)
    requires steps != []
    ensures Join(steps + [step]) == Join(steps) + "/" + step
    ensures Join([step]) == step
  {
    if |steps| == 1 {
      assert (steps + [step])[1..] == [step];
    } else {
      assert (steps + [step])[1..] == steps[1..] + [step];
      JoinOneMore(steps[1..], step);
      assert steps[0] + "/" + (Join(steps[1..]) + "/" + step) == (steps[0] + "/" + Join(steps[1..])) + "/" + step;
    }
  }

  lemma StepsAreSplit(raw: string, steps: seq<string>)
    requires WrittenAs(raw, steps)
    ensures Slashed(raw) == Join(steps) && Split(Slashed(raw)) == steps
  {
    hide Split, Join;
    assert Slashed(raw) == Join(steps);
    SplitOfJoin(steps);
  }

  /** What a path becomes is decided by how it starts and by the steps it is written with. */
  lemma PathBecomes(raw: string, steps: seq<string>)
    requires WrittenAs(raw, steps)
    ensures var r := Normalized(raw);
            var absolute := raw != "" && (raw[0] == '/' || raw[0] == '\\');
            && (r == Err(EmptyPath) <==> raw == "")
            && (r == Err(AbsolutePath) <==> absolute)
            && (r == Err(EscapesRoot) <==> raw != "" && !absolute && ".." in steps)
            && (r == Err(NothingLeft) <==> raw != "" && !absolute && ".." !in steps && Names(steps) == [])
            && (r.Ok? <==> raw != "" && !absolute && ".." !in steps && Names(steps) != [])
            && (r.Ok? ==> r.value == Join(Names(steps)))
  {
    StepsAreSplit(raw, steps);
    NamesAreKept(steps);
    hide Split, Join, Kept, Names;
  }

  /** Every path is written with some steps. */
  lemma EveryPathHasSteps(raw: string) returns (steps: seq<string>)
    ensures WrittenAs(raw, steps)
  {
    steps := Split(Slashed(raw));
    JoinOfSplit(Slashed(raw));
    forall p | p in steps ensures '/' !in p { PartOfSplit(Slashed(raw), p); }
    hide Split, Join;
  }

  lemma {:induction false} JoinOfSplit(s: string)
    ensures Join(Split(s)) == s
  {
    if s != "" {
      var r := Split(s[1..]);
      JoinOfSplit(s[1..]);
      assert s == [s[0]] + s[1..];
      if s[0] == '/' {
        assert ([""] + r)[1..] == r;
      } else {
        assert ([[s[0]] + r[0]] + r[1..])[1..] == r[1..];
        if |r| == 1 { assert r == [r[0]]; }
      }
    }
  }

  // ---------------------------------------------------------------- manifest

  /** The manifest of more entries is the manifest of the first ones with the frames of the rest behind. */
  lemma {:induction false} ManifestOneMore(entries: seq<Entry>, e: Entry)
    ensures Manifest(entries + [e])
         == Manifest(entries) + (Numeral(Utf8Length(e.path)) + ":" + e.path + "\n"
                                 + Numeral(|e.digest|) + ":" + e.digest + "\n")
    ensures Manifest([]) == ""
  {
    assert (entries + [e])[..|entries| + 1] == entries + [e] && (entries + [e])[..|entries|] == entries;
    ManifestSnoc(entries + [e], |entries|);
    hide Numeral, Utf8Length, Manifest;
  }

  /** The lengths are those of UTF-8: one byte up to 7F, two up to 7FF, three up to FFFF, and else four. */
  lemma {:induction false} Utf8LengthOneMore(s: string, c: char)
    ensures Utf8Length("") == 0
    ensures Utf8Length(s + [c])
         == Utf8Length(s)
            + (if c <= '\U{7F}' then 1 else if c <= '\U{7FF}' then 2 else if c <= '\U{FFFF}' then 3 else 4)
  {
    if s == "" {
      assert [c][1..] == "";
      assert s + [c] == [c];
      assert Utf8Length([c]) == Utf8Width(c) + Utf8Length("");
    } else {
      assert (s + [c])[1..] == s[1..] + [c];
      Utf8LengthOneMore(s[1..], c);
    }
  }

  /** A well-formed pin, character by character. */
  lemma WellFormedIs(s: string)
    ensures WellFormedHash(s) <==>
              |s| == 71 && s[..7] == "sha256:" && forall i :: 7 <= i < 71 ==> s[i] in "0123456789abcdef"
  {
    var digits := "0123456789abcdef";
    assert forall k :: 0 <= k < 10 ==> digits[k] == '0' + k as char;
    assert forall k :: 10 <= k < 16 ==> digits[k] == 'a' + (k - 10) as char;
    forall c: char ensures IsHex(c) <==> c in digits {
      if '0' <= c <= '9' { assert digits[(c - '0') as int] == c; }
      if 'a' <= c <= 'f' { assert digits[10 + (c - 'a') as int] == c; }
    }
    hide IsHex;
    if "sha256:" <= s { assert s[..7] == "sha256:"; }
  }

  lemma SortedIsOne(p: string)
    ensures Sorted({p}) == [p]
  {
    var r := Sorted({p});
    assert r[0] in r;
  }

  lemma DigitsOf64()
    ensures Numeral(64) == "64" && Numeral(3) == "3"
  {
    assert Numeral(6) == "6";
    assert Numeral(64) == Numeral(6) + [Digit(4)];
  }

  /** One file, in full: its path in UTF-8 bytes, its digest of 64 characters, each after its length, and the hash of
      that text behind the name of the algorithm. */
  lemma OneFile(h: Hash, content: Bytes)
    requires |h.content(content)| == 64
    ensures BundleHash(h, [(".\\a\\b", content)]) == Ok("sha256:" + h.text("3:a/b\n64:" + h.content(content) + "\n"))
  {
    var raw := ".\\a\\b";
    OneFileTree(content);
    hide Tree;
    var tree: map<string, Bytes> := map["a/b" := content];
    SortedIsOne("a/b");
    hide Sorted;
    assert tree.Keys == {"a/b"};
    var e := Entry("a/b", h.content(content));
    assert Listed(h, tree, ["a/b"]) == [e];
    ManifestOneMore([], e);
    assert [] + [e] == [e];
    DigitsOf64();
    ThreeBytes();
    hide Manifest, Numeral, Utf8Length;
    assert ManifestOf(h, tree) == "" + ("3" + ":" + "a/b" + "\n" + "64" + ":" + e.digest + "\n");
    assert "" + ("3" + ":" + "a/b" + "\n" + "64" + ":" + e.digest + "\n") == "3:a/b\n64:" + e.digest + "\n";
  }

  lemma ThreeBytes()
    ensures Utf8Length("a/b") == 3
  {
    Utf8LengthOneMore("", 'a');
    Utf8LengthOneMore("a", '/');
    Utf8LengthOneMore("a/", 'b');
    hide Utf8Length;
    assert "" + ['a'] == "a" && "a" + ['/'] == "a/" && "a/" + ['b'] == "a/b";
  }

  lemma OneFileTree(content: Bytes)
    ensures Tree([(".\\a\\b", content)]) == Ok(map["a/b" := content])
  {
    var raw, steps := ".\\a\\b", [".", "a", "b"];
    StepsOfTheFile();
    PathBecomes(raw, steps);
    hide Normalized, Join;
    var bundle: Bundle := [(raw, content)];
    assert bundle[..0] == [];
    assert Tree([]) == Ok(map[]);
  }

  lemma StepsOfTheFile()
    ensures WrittenAs(".\\a\\b", [".", "a", "b"])
    ensures Names([".", "a", "b"]) == ["a", "b"] && Join(["a", "b"]) == "a/b"
  {
    var raw := ".\\a\\b";
    assert ["a", "b"][1..] == ["b"] && [".", "a", "b"][1..] == ["a", "b"];
    assert Join(["b"]) == "b";
    assert Join(["a", "b"]) == "a" + "/" + "b" == "a/b";
    assert Join([".", "a", "b"]) == "." + "/" + "a/b" == "./a/b";
    assert [".", "a", "b"][..2] == [".", "a"] && [".", "a"][..1] == ["."] && ["."][..0] == [];
    assert Names(["."]) == [] && Names([".", "a"]) == ["a"];
  }
}
