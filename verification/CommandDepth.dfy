/** The depth limit of the command normaliser against the meaning a command has without it. */
module CommandDepth {
  import opened ShellScan
  import opened ShellScanLaws
  import opened CommandNormalize
  import opened CommandNormalizeLaws

  // ----------------------------------------------------------- text lengths

  lemma {:induction false} SuffixIsShorter(tokens: seq<string>, k: nat)
    requires k <= |tokens|
    ensures |Joined(tokens[k..])| <= |Joined(tokens)|
    ensures 0 < k < |tokens| ==> |Joined(tokens[k..])| < |Joined(tokens)|
  {
    assert tokens[0..] == tokens;
    if k > 0 && |tokens| > 1 {
      assert tokens[1..][k - 1..] == tokens[k..];
      SuffixIsShorter(tokens[1..], k - 1);
    }
  }

  lemma DropIsSuffix(tokens: seq<string>)
    ensures |Joined(DropAssignments(tokens))| <= |Joined(tokens)|
  {
    SuffixIsShorter(tokens, |tokens| - |DropAssignments(tokens)|);
  }

  lemma FirstIsNoLonger(tokens: seq<string>)
    requires tokens != []
    ensures |tokens[0]| <= |Joined(tokens)|
  {}

  lemma SuffixOfConcat(a: seq<string>, b: seq<string>)
    ensures |Joined(b)| <= |Joined(a + b)|
  {
    SuffixIsShorter(a + b, |a|);
    assert (a + b)[|a|..] == b;
  }

  lemma ShellIsShorter(tokens: seq<string>)
    ensures FromTokens(tokens).Nested? ==> |FromTokens(tokens).command| < |Joined(tokens)|
  {
    hide Joined;
    if FromTokens(tokens).Nested? { SuffixIsShorter(tokens, 2); }
  }

  lemma EnvIsShorter(args: seq<string>)
    ensures match EnvArguments(args)
            case Text(c) => |c| <= |Joined(args)|
            case Tokens(ts) => |Joined(ts)| <= |Joined(args)|
  {
    hide EnvArguments;
    var options, rest := EnvRunsItsCommand(args);
    SuffixOfConcat(options, rest);
    if EnvArguments(args).Text? && |rest| > 1 {
      SuffixIsShorter(rest, 1);
      FirstIsNoLonger(rest[1..]);
    }
  }

  lemma EnvWordCounts(tokens: seq<string>)
    requires tokens != [] && tokens[0] == "env"
    ensures |Joined(tokens[1..])| < |Joined(tokens)|
  {}

  /** A command found inside wrapper tokens is shorter than the tokens joined. */
  lemma TokensShrink(all: seq<string>)
    ensures FromAllTokens(all).Nested? ==> |FromAllTokens(all).command| < |Joined(all)|
  {
    hide Joined, EnvArguments, FromTokens, DropAssignments;
    var tokens := DropAssignments(all);
    DropIsSuffix(all);
    if tokens != [] && tokens[0] == "env" {
      EnvIsShorter(tokens[1..]);
      EnvWordCounts(tokens);
      if EnvArguments(tokens[1..]).Tokens? { ShellIsShorter(EnvArguments(tokens[1..]).tokens); }
    } else {
      ShellIsShorter(tokens);
    }
  }

  /** A command found inside a segment is shorter than the segment. */
  lemma NestedIsShorter(lex: Tokenizer, seg: string)
    requires Frugal(lex)
    ensures Classify(lex, seg).Nested? ==> |Classify(lex, seg).command| < |seg|
  {
    hide Strip, FromAllTokens, Joined, Balanced;
    var text := Strip(seg);
    if text != "" && !IsSubshell(text) && lex(text).Some? {
      TokensShrink(lex(text).value);
    }
  }

  lemma {:induction false} PartsFit(texts: seq<string>)
    ensures forall t :: t in texts ==> |t| <= TotalLength(texts)
  {
    if texts != [] {
      PartsFit(texts[1..]);
      assert texts == [texts[0]] + texts[1..];
    }
  }

  lemma {:induction false} SegmentsFit(text: string)
    ensures TotalLength(Segments(text)) + |Segments(text)| <= |text| + 1
    decreases |text|
  {
    hide Depth, QuoteAfter, SeparatorAt, IsCut;
    var k := FirstCut(text, 0);
    if k == |text| {
      assert Segments(text) == [text];
      assert TotalLength([text]) == |text| + TotalLength([]);
    } else {
      CutMovesOn(text, k);
      var rest := text[k + SeparatorAt(text, k)..];
      SegmentsFit(rest);
      assert Segments(text)[1..] == Segments(rest);
    }
  }

  // ------------------------------------------- the meaning without a limit

  /** The commands found, and how many levels of nesting were entered to find them. */
  datatype Outcome = Outcome(commands: seq<string>, height: nat)

  function Both(a: Outcome, b: Outcome): Outcome {
    Outcome(a.commands + b.commands, if a.height < b.height then b.height else a.height)
  }

  function Under(a: Outcome): Outcome {
    Outcome(a.commands, a.height + 1)
  }

  ghost predicate AllBelow(texts: seq<string>, n: nat) {
    forall t :: t in texts ==> |t| < n
  }

  lemma PartsAreBelow(raw: string)
    ensures AllBelow(Inners(Pieces(raw)), |raw| + 1) && (Inners(Pieces(raw)) != [] ==>
                                                         AllBelow(Inners(Pieces(raw)), |raw|))
    ensures AllBelow(Segments(Outside(Pieces(raw))), |raw| + 1)
  {
    hide Pieces, Inners, Outside, Segments, TotalLength;
    var p := Pieces(raw);
    ExtractionShrinks(raw);
    PartsFit(Inners(p));
    SegmentsFit(Outside(p));
    PartsFit(Segments(Outside(p)));
    SomeSegment(Outside(p));
  }

  lemma SomeSegment(text: string)
    ensures Segments(text) != []
  {}

  /** What `raw` stands for when every wrapper is unwrapped, however deep. */
  ghost function Meaning(lex: Tokenizer, raw: string): Outcome
    requires Frugal(lex)
    decreases |raw|, 3
  {
    PartsAreBelow(raw);
    Both(MeaningOfInners(lex, Inners(Pieces(raw)), |raw|),
         MeaningOfSegments(lex, Segments(Outside(Pieces(raw))), |raw|))
  }

  ghost function MeaningOfInners(lex: Tokenizer, inners: seq<string>, n: nat): Outcome
    requires Frugal(lex) && (inners != [] ==> AllBelow(inners, n))
    decreases n, 2, |inners|
  {
    if inners == [] then Outcome([], 0)
    else Both(Under(Meaning(lex, inners[0])), MeaningOfInners(lex, inners[1..], n))
  }

  ghost function MeaningOfSegments(lex: Tokenizer, segments: seq<string>, n: nat): Outcome
    requires Frugal(lex) && AllBelow(segments, n + 1)
    decreases n, 2, |segments|
  {
    if segments == [] then Outcome([], 0)
    else Both(MeaningOfSegment(lex, segments[0], n), MeaningOfSegments(lex, segments[1..], n))
  }

  ghost function MeaningOfSegment(lex: Tokenizer, seg: string, n: nat): Outcome
    requires Frugal(lex) && |seg| <= n
    decreases n, 1
  {
    NestedIsShorter(lex, seg);
    match Classify(lex, seg)
    case Nothing => Outcome([], 0)
    case Malformed => Outcome([UNPARSEABLE], 0)
    case Command(text) => Outcome([text], 0)
    case Nested(command) => Under(Meaning(lex, command))
  }

  // -------------------------------------------------- the limit is honest

  /** A result is exact when the nesting fits under the limit, and carries the sentinel when it does not. */
  predicate Honest(result: seq<string>, depth: nat, meaning: Outcome) {
    if depth + meaning.height <= MAX_RECURSE_DEPTH then result == meaning.commands else UNPARSEABLE in result
  }

  lemma HonestBoth(a: seq<string>, b: seq<string>, depth: nat, x: Outcome, y: Outcome)
    requires Honest(a, depth, x) && Honest(b, depth, y)
    ensures Honest(a + b, depth, Both(x, y))
  {}

  lemma HonestUnder(a: seq<string>, depth: nat, x: Outcome)
    requires Honest(a, depth + 1, x)
    ensures Honest(a, depth, Under(x))
  {}

  lemma {:induction false} LimitIsHonest(lex: Tokenizer, raw: string, depth: nat)
    requires Frugal(lex)
    ensures Honest(NormalForm(lex, raw, depth), depth, Meaning(lex, raw))
    decreases |raw|, 3
  {
    hide Honest, Both, Under, NormalInners, NormalSegments, MeaningOfInners, MeaningOfSegments, Inners, Outside,
        Segments, Pieces;
    PartsAreBelow(raw);
    if depth > MAX_RECURSE_DEPTH {
      OverTheLimit(depth, Meaning(lex, raw));
    } else {
      var inners, segments := Inners(Pieces(raw)), Segments(Outside(Pieces(raw)));
      InnersAreHonest(lex, inners, |raw|, depth);
      SegmentsAreHonest(lex, segments, |raw|, depth);
      HonestBoth(NormalInners(lex, inners, depth), NormalSegments(lex, segments, depth), depth,
                 MeaningOfInners(lex, inners, |raw|), MeaningOfSegments(lex, segments, |raw|));
    }
  }

  lemma OverTheLimit(depth: nat, x: Outcome)
    requires depth > MAX_RECURSE_DEPTH
    ensures Honest([UNPARSEABLE], depth, x)
  {}

  lemma NothingIsHonest(depth: nat)
    requires depth <= MAX_RECURSE_DEPTH
    ensures Honest([], depth, Outcome([], 0))
  {}

  lemma {:induction false} InnersAreHonest(lex: Tokenizer, inners: seq<string>, n: nat, depth: nat)
    requires Frugal(lex) && (inners != [] ==> AllBelow(inners, n)) && depth <= MAX_RECURSE_DEPTH
    ensures Honest(NormalInners(lex, inners, depth), depth, MeaningOfInners(lex, inners, n))
    decreases n, 2, |inners|
  {
    hide Honest, Both, Under, NormalForm, Meaning, Frugal;
    if inners == [] {
      NothingIsHonest(depth);
    } else {
      LimitIsHonest(lex, inners[0], depth + 1);
      HonestUnder(NormalForm(lex, inners[0], depth + 1), depth, Meaning(lex, inners[0]));
      InnersAreHonest(lex, inners[1..], n, depth);
      HonestBoth(NormalForm(lex, inners[0], depth + 1), NormalInners(lex, inners[1..], depth), depth,
                 Under(Meaning(lex, inners[0])), MeaningOfInners(lex, inners[1..], n));
    }
  }

  lemma {:induction false} SegmentsAreHonest(lex: Tokenizer, segments: seq<string>, n: nat, depth: nat)
    requires Frugal(lex) && AllBelow(segments, n + 1) && depth <= MAX_RECURSE_DEPTH
    ensures Honest(NormalSegments(lex, segments, depth), depth, MeaningOfSegments(lex, segments, n))
    decreases n, 2, |segments|
  {
    hide Honest, Both, Under, NormalSegment, MeaningOfSegment, Frugal;
    if segments == [] {
      NothingIsHonest(depth);
    } else {
      SegmentIsHonest(lex, segments[0], n, depth);
      SegmentsAreHonest(lex, segments[1..], n, depth);
      HonestBoth(NormalSegment(lex, segments[0], depth), NormalSegments(lex, segments[1..], depth), depth,
                 MeaningOfSegment(lex, segments[0], n), MeaningOfSegments(lex, segments[1..], n));
    }
  }

  lemma {:induction false} SegmentIsHonest(lex: Tokenizer, seg: string, n: nat, depth: nat)
    requires Frugal(lex) && |seg| <= n && depth <= MAX_RECURSE_DEPTH
    ensures Honest(NormalSegment(lex, seg, depth), depth, MeaningOfSegment(lex, seg, n))
    decreases n, 1
  {
    hide Classify, Meaning, NormalForm, Frugal;
    NestedIsShorter(lex, seg);
    if Classify(lex, seg).Nested? {
      var command := Classify(lex, seg).command;
      if depth < MAX_RECURSE_DEPTH {
        LimitIsHonest(lex, command, depth + 1);
        HonestUnder(NormalForm(lex, command, depth + 1), depth, Meaning(lex, command));
      }
    }
  }

  /** A result without the sentinel is the whole meaning of the command, whatever depth it was read at. */
  lemma SentinelFreeIsExact(lex: Tokenizer, raw: string, depth: nat)
    requires Frugal(lex) && UNPARSEABLE !in NormalForm(lex, raw, depth)
    ensures NormalForm(lex, raw, depth) == Meaning(lex, raw).commands
    ensures depth + Meaning(lex, raw).height <= MAX_RECURSE_DEPTH
  {
    hide NormalForm, Meaning;
    LimitIsHonest(lex, raw, depth);
  }

  // ------------------------------------------------------ bounded output

  lemma {:induction false} OutputIsBounded(lex: Tokenizer, raw: string, depth: nat)
    requires Frugal(lex)
    ensures |NormalForm(lex, raw, depth)| <= |raw| + 1
    decreases Left(depth), 3
  {
    hide Frugal, NormalInners, NormalSegments, Inners, Outside, Segments, Pieces, TotalLength;
    if depth <= MAX_RECURSE_DEPTH {
      var p := Pieces(raw);
      InnersAreBounded(lex, Inners(p), depth);
      SegmentsAreBounded(lex, Segments(Outside(p)), depth);
      ExtractionShrinks(raw);
      SegmentsFit(Outside(p));
    }
  }

  lemma {:induction false} InnersAreBounded(lex: Tokenizer, inners: seq<string>, depth: nat)
    requires Frugal(lex) && depth <= MAX_RECURSE_DEPTH
    ensures |NormalInners(lex, inners, depth)| <= TotalLength(inners) + |inners|
    decreases Left(depth), 2, |inners|
  {
    hide Frugal, NormalForm;
    if inners != [] {
      OutputIsBounded(lex, inners[0], depth + 1);
      InnersAreBounded(lex, inners[1..], depth);
    }
  }

  lemma {:induction false} SegmentsAreBounded(lex: Tokenizer, segments: seq<string>, depth: nat)
    requires Frugal(lex) && depth <= MAX_RECURSE_DEPTH
    ensures |NormalSegments(lex, segments, depth)| <= TotalLength(segments) + |segments|
    decreases Left(depth), 2, |segments|
  {
    hide Frugal, NormalForm, Classify;
    if segments != [] {
      var seg := segments[0];
      NestedIsShorter(lex, seg);
      if Classify(lex, seg).Nested? && depth < MAX_RECURSE_DEPTH {
        OutputIsBounded(lex, Classify(lex, seg).command, depth + 1);
      }
      SegmentsAreBounded(lex, segments[1..], depth);
    }
  }

  // ------------------------------------------------------------ subshells

  function InSubshells(r: string, k: nat): string {
    if k == 0 then r else InParens(InSubshells(r, k - 1))
  }

  lemma {:induction false} SubshellsStayPlain(r: string, k: nat)
    requires Balanced(r) && NoGroups(r)
    ensures Balanced(InSubshells(r, k)) && NoGroups(InSubshells(r, k))
  {
    hide Balanced;
    if k > 0 {
      var s := InSubshells(r, k - 1);
      SubshellsStayPlain(r, k - 1);
      SubshellIsOneSegment(s);
      var t := InParens(s);
      forall i | 0 <= i < |t| - 1
        ensures !(t[i] == '$' && t[i + 1] == '(')
      {
        if 0 < i < |s| { assert t[i] == s[i - 1] && t[i + 1] == s[i - 1 + 1]; }
      }
    }
  }

  lemma SubshellIsClassified(lex: Tokenizer, r: string)
    requires Balanced(r)
    ensures Classify(lex, InParens(r)) == Nested(r)
  {
    hide Balanced;
    var t := InParens(r);
    assert Strip(t) == t;
    assert t[1..|t| - 1] == r;
  }

  /** One pair of parens around a balanced text is one level of nesting and nothing else. */
  lemma SubshellIsOneLevel(lex: Tokenizer, r: string, depth: nat)
    requires Balanced(r) && NoGroups(r) && depth <= MAX_RECURSE_DEPTH
    ensures NormalForm(lex, InParens(r), depth)
         == if depth == MAX_RECURSE_DEPTH then [UNPARSEABLE] else NormalForm(lex, r, depth + 1)
  {
    hide Balanced, Pieces, Outside, Inners, Segments, Classify;
    var t := InParens(r);
    SubshellsStayPlain(r, 1);
    assert InSubshells(r, 1) == InParens(InSubshells(r, 0));
    NothingToExtract(t);
    SubshellIsOneSegment(r);
    SubshellIsClassified(lex, r);
    NormalFormOf(lex, t, depth);
    OneSegmentAlone(lex, t, depth);
  }

  lemma OneSegmentAlone(lex: Tokenizer, seg: string, depth: nat)
    requires depth <= MAX_RECURSE_DEPTH
    ensures NormalInners(lex, [], depth) + NormalSegments(lex, [seg], depth) == NormalSegment(lex, seg, depth)
  {
    hide NormalSegment;
    assert [seg][1..] == [];
  }

  /** Up to the limit, subshells only move the command deeper; one more gives exactly the sentinel. */
  lemma {:induction false} SubshellsAreLevels(lex: Tokenizer, r: string, k: nat, depth: nat)
    requires Balanced(r) && NoGroups(r) && depth <= MAX_RECURSE_DEPTH
    ensures NormalForm(lex, InSubshells(r, k), depth)
         == if depth + k > MAX_RECURSE_DEPTH then [UNPARSEABLE] else NormalForm(lex, r, depth + k)
    decreases k
  {
    hide Balanced, NoGroups, NormalForm;
    if k > 0 {
      SubshellsStayPlain(r, k - 1);
      SubshellIsOneLevel(lex, InSubshells(r, k - 1), depth);
      if depth < MAX_RECURSE_DEPTH { SubshellsAreLevels(lex, r, k - 1, depth + 1); }
    }
  }

  /** A command that needs no unwrapping of its own keeps its normal form in up to three subshells and loses it in
      four. */
  lemma SubshellsDoNotMatter(lex: Tokenizer, r: string, k: nat)
    requires Frugal(lex) && Balanced(r) && NoGroups(r)
    ensures k + Meaning(lex, r).height <= MAX_RECURSE_DEPTH ==>
              NormalForm(lex, InSubshells(r, k), 0) == NormalForm(lex, r, 0) == Meaning(lex, r).commands
    ensures k + Meaning(lex, r).height > MAX_RECURSE_DEPTH ==> UNPARSEABLE in NormalForm(lex, InSubshells(r, k), 0)
    ensures k >= 4 ==> NormalForm(lex, InSubshells(r, k), 0) == ["__UNPARSEABLE__"]
  {
    hide Balanced, NoGroups, NormalForm, Meaning, Frugal;
    SubshellsAreLevels(lex, r, k, 0);
    LimitIsHonest(lex, r, k);
    LimitIsHonest(lex, r, 0);
  }
}
