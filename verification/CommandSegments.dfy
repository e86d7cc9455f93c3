/** What one segment of a command line becomes, told from the tokens it splits into: every token list is one of a few
    shapes, and each shape has one meaning. */
module CommandSegments {
  import opened Common
  import opened ShellScan
  import opened ShellScanLaws
  import opened CommandNormalize
  import opened CommandNormalizeLaws

  // ----------------------------------------------------------------- joining

  /** Joining is concatenation with one space between. */
  lemma {:induction false} JoinedConcat(a: seq<string>, b: seq<string>)
    requires a != [] && b != []
    ensures Joined(a + b) == Joined(a) + " " + Joined(b)
  {
    if |a| == 1 {
      assert (a + b)[1..] == b;
    } else {
      assert (a + b)[1..] == a[1..] + b;
      JoinedConcat(a[1..], b);
      assert a[0] + " " + (Joined(a[1..]) + " " + Joined(b)) == (a[0] + " " + Joined(a[1..])) + " " + Joined(b);
    }
  }

  /** The words between spaces, as `str.split(" ")` gives them. */
  function WordsOf(text: string): (r: seq<string>)
    ensures r != []
  {
    if text == "" then [""]
    else
      var r := WordsOf(text[1..]);
      if text[0] == ' ' then [""] + r else [[text[0]] + r[0]] + r[1..]
  }

  lemma {:induction false} WordInFront(word: string, rest: string)
    requires ' ' !in word
    ensures WordsOf(word + " " + rest) == [word] + WordsOf(rest)
  {
    var text := word + " " + rest;
    if word == "" {
      assert text[1..] == rest;
    } else {
      assert text[1..] == word[1..] + " " + rest;
      WordInFront(word[1..], rest);
      assert ([word[1..]] + WordsOf(rest))[1..] == WordsOf(rest);
      assert word == [word[0]] + word[1..];
    }
  }

  lemma {:induction false} OneWord(word: string)
    requires ' ' !in word
    ensures WordsOf(word) == [word]
  {
    if word != "" {
      OneWord(word[1..]);
      assert word == [word[0]] + word[1..];
    }
  }

  /** Tokens without spaces are read back from their join by splitting at spaces. */
  lemma {:induction false} JoinedReadsBack(tokens: seq<string>)
    requires tokens != [] && forall t :: t in tokens ==> ' ' !in t
    ensures WordsOf(Joined(tokens)) == tokens
  {
    hide WordsOf;
    if |tokens| == 1 {
      OneWord(tokens[0]);
    } else {
      JoinedReadsBack(tokens[1..]);
      WordInFront(tokens[0], Joined(tokens[1..]));
    }
  }

  // ---------------------------------------------------------- shapes of tokens

  ghost predicate AllAssignments(tokens: seq<string>) {
    forall t :: t in tokens ==> IsAssignment(t)
  }

  /** What may stand before the words that are run: assignments, and perhaps `env` with its options. */
  datatype Prefix = Prefix(assignments: seq<string>, env: bool, options: seq<string>) {
    function Tokens(): seq<string> {
      assignments + (if env then ["env"] + options else [])
    }

    ghost predicate Valid() {
      AllAssignments(assignments) && (if env then EnvOptions(options) else options == [])
    }
  }

  predicate IsInterpreter(word: string) {
    word == "sh" || word == "bash" || word == "zsh" || word == "dash" || word == "ksh"
  }

  /** A word that the prefix before it does not swallow. */
  predicate Starts(prefix: Prefix, word: string) {
    && !IsAssignment(word)
    && (if prefix.env then word != "-S" && word != "-u" && word != "-i" else word != "env")
  }

  lemma {:induction false} DropsAssignments(assignments: seq<string>, rest: seq<string>)
    requires AllAssignments(assignments) && (rest == [] || !IsAssignment(rest[0]))
    ensures DropAssignments(assignments + rest) == rest
  {
    hide IsAssignment;
    if assignments == [] {
      assert assignments + rest == rest;
    } else {
      assert (assignments + rest)[1..] == assignments[1..] + rest;
      DropsAssignments(assignments[1..], rest);
    }
  }

  lemma EnvIsNoAssignment()
    ensures !IsAssignment("env")
  {
    assert "env"[1..] == "nv" && "nv"[1..] == "v" && "v"[1..] == "";
  }

  /** Behind a prefix, the words that are run decide. */
  lemma PrefixIsInvisible(prefix: Prefix, words: seq<string>)
    requires prefix.Valid() && (words == [] || Starts(prefix, words[0]))
    ensures FromAllTokens(prefix.Tokens() + words) == FromTokens(words)
  {
    hide IsAssignment, FromTokens, EnvOptions, AllAssignments, DropAssignments, EnvArguments;
    if prefix.env {
      BehindEnv(prefix, words);
      RunsAsItIs(prefix, words);
    } else {
      assert prefix.Tokens() + words == prefix.assignments + words;
      DropsAssignments(prefix.assignments, words);
    }
  }

  /** Behind `env` and its options, what follows decides. */
  lemma BehindEnv(prefix: Prefix, words: seq<string>)
    requires prefix.Valid() && prefix.env
    ensures DropAssignments(prefix.Tokens() + words) == ["env"] + (prefix.options + words)
    ensures EnvArguments(prefix.options + words) == EnvArguments(words)
    ensures (["env"] + (prefix.options + words))[1..] == prefix.options + words
  {
    hide IsAssignment, AllAssignments, DropAssignments, EnvArguments, EnvOptions;
    EnvIsNoAssignment();
    var rest := ["env"] + (prefix.options + words);
    assert prefix.Tokens() + words == prefix.assignments + rest;
    DropsAssignments(prefix.assignments, rest);
    EnvOptionsAreInvisible(prefix.options, words);
  }

  lemma RunsAsItIs(prefix: Prefix, words: seq<string>)
    requires prefix.env && (words == [] || Starts(prefix, words[0]))
    ensures EnvArguments(words) == Tokens(words)
  {
    hide IsAssignment;
  }

  lemma WordsStart(prefix: Prefix, word: string)
    requires IsInterpreter(word) || word == "git"
    ensures Starts(prefix, word)
  {
    assert word[|word|..] == "";
    NoEqualsNoAssignment(word);
  }

  lemma {:induction false} NoEquals(s: string)
    requires NameThenEquals(s)
    ensures '=' in s
  {
    if s[0] != '=' { NoEquals(s[1..]); }
  }

  lemma NoEqualsNoAssignment(word: string)
    ensures IsAssignment(word) ==> '=' in word
  {
    if IsAssignment(word) { NoEquals(word[1..]); }
  }

  // --------------------------------------------------------- what each means

  /** The text is a balanced one in parens. */
  ghost predicate InBalancedParens(text: string) {
    exists r :: text == "(" + r + ")" && Balanced(r)
  }

  lemma SubshellIs(text: string)
    ensures IsSubshell(text) <==> InBalancedParens(text)
  {
    hide Balanced;
    if IsSubshell(text) { assert text == "(" + text[1..|text| - 1] + ")"; }
    if r :| text == "(" + r + ")" && Balanced(r) { assert text[1..|text| - 1] == r; }
  }

  /** The segment is split into tokens: it is not blank and no subshell. */
  ghost predicate SplitsInto(lex: Tokenizer, seg: string, tokens: seq<string>) {
    Strip(seg) != "" && !InBalancedParens(Strip(seg)) && lex(Strip(seg)) == Some(tokens)
  }

  lemma ClassifiedByTokens(lex: Tokenizer, seg: string, tokens: seq<string>)
    requires SplitsInto(lex, seg, tokens)
    ensures Classify(lex, seg) == FromAllTokens(tokens)
  {
    SubshellIs(Strip(seg));
    hide FromAllTokens, Strip, IsSubshell, InBalancedParens;
  }

  /** A git command loses its global options, up to the subcommand, and nothing else. */
  lemma GitCommand(lex: Tokenizer, seg: string, prefix: Prefix, options: seq<string>, rest: seq<string>)
    requires prefix.Valid() && GitOptions(options) && AtSubcommand(rest)
    requires SplitsInto(lex, seg, prefix.Tokens() + (["git"] + options + rest))
    ensures Classify(lex, seg) == Command(Joined(["git"] + rest))
  {
    var words := ["git"] + options + rest;
    WordsStart(prefix, "git");
    GitWords(options, rest);
    hide *;
    ClassifiedByTokens(lex, seg, prefix.Tokens() + words);
    PrefixIsInvisible(prefix, words);
  }

  lemma GitWords(options: seq<string>, rest: seq<string>)
    requires GitOptions(options) && AtSubcommand(rest)
    ensures FromTokens(["git"] + options + rest) == Command(Joined(["git"] + rest))
  {
    hide GitOptions, AtSubcommand, AfterGitOptions, Joined;
    assert (["git"] + options + rest)[1..] == options + rest;
    GitOptionsAreInvisible(options, rest);
    SubcommandStays(rest);
  }

  lemma SubcommandStays(rest: seq<string>)
    requires AtSubcommand(rest)
    ensures AfterGitOptions(rest) == rest
  {
    hide TakesArgument, HasInlineValue, IsBareOption;
    if rest != [] { OptionKinds(rest[0]); }
  }

  lemma OptionKinds(t: string)
    ensures TakesArgument(t) ==> !HasInlineValue(t) && !IsBareOption(t)
  {
    hide *;
    if HasInlineValue(t) || IsBareOption(t) { OptionKindsAreApart(t); }
  }

  predicate NamesAnOption(t: string) {
    || t == "-C" || t == "-c" || t == "--git-dir" || t == "--work-tree" || t == "--namespace" || t == "--super-prefix"
    || t == "--config-env" || t == "--exec-path"
  }

  predicate NamesASwitch(t: string) {
    || t == "--no-pager" || t == "-p" || t == "-P" || t == "--paginate" || t == "--bare" || t == "--literal-pathspecs"
    || t == "--glob-pathspecs" || t == "--noglob-pathspecs" || t == "--icase-pathspecs" || t == "--no-replace-objects"
    || t == "--no-optional-locks" || t == "--no-lazy-fetch" || t == "--no-advice"
  }

  /** The global options by name: those that take an argument, behind them or after an equals sign, and the switches. */
  lemma OptionsByName(t: string, value: string)
    ensures NamesAnOption(t) <==> TakesArgument(t)
    ensures NamesASwitch(t) <==> IsBareOption(t)
    ensures NamesAnOption(t) ==> GitOptions([t, value]) && HasInlineValue(t + "=" + value)
    ensures NamesASwitch(t) ==> GitOptions([t])
  {
    if TakesArgument(t) { assert t + "=" <= t + "=" + value; }
    assert [t, value][2..] == [] && [t][1..] == [];
    if NamesASwitch(t) { OptionKinds(t); }
  }

  /** The text after `-c` of a shell is a command of its own. */
  lemma ShellCommand(lex: Tokenizer, seg: string, prefix: Prefix, shell: string, words: seq<string>)
    requires prefix.Valid() && IsInterpreter(shell) && words != []
    requires SplitsInto(lex, seg, prefix.Tokens() + ([shell, "-c"] + words))
    ensures Classify(lex, seg) == Nested(Joined(words))
  {
    var all := [shell, "-c"] + words;
    WordsStart(prefix, shell);
    hide Classify, SplitsInto, Starts, IsAssignment, Joined, AfterGitOptions;
    ClassifiedByTokens(lex, seg, prefix.Tokens() + all);
    PrefixIsInvisible(prefix, all);
    assert all[2..] == words;
    hide FromAllTokens;
  }

  /** `env -S` hands over its argument, or nothing, as a command of its own. */
  lemma EnvSplitString(lex: Tokenizer, seg: string, prefix: Prefix, words: seq<string>)
    requires prefix.Valid() && prefix.env
    requires SplitsInto(lex, seg, prefix.Tokens() + (["-S"] + words))
    ensures Classify(lex, seg) == Nested(if words == [] then "" else words[0])
  {
    hide Classify, IsAssignment, FromTokens, EnvOptions, AllAssignments, DropAssignments, Strip, InBalancedParens;
    ClassifiedByTokens(lex, seg, prefix.Tokens() + (["-S"] + words));
    BehindEnv(prefix, ["-S"] + words);
    hide SplitsInto;
  }

  /** A command that is neither git nor a shell with a command text. */
  predicate IsOrdinary(words: seq<string>) {
    words != [] && words[0] != "git" && !(IsInterpreter(words[0]) && |words| >= 3 && words[1] == "-c")
  }

  /** Any other command stays as it is. */
  lemma OrdinaryCommand(lex: Tokenizer, seg: string, prefix: Prefix, words: seq<string>)
    requires prefix.Valid() && IsOrdinary(words) && Starts(prefix, words[0])
    requires SplitsInto(lex, seg, prefix.Tokens() + words)
    ensures Classify(lex, seg) == Command(Joined(words))
  {
    hide Classify, SplitsInto, Starts, IsAssignment, Joined, AfterGitOptions;
    ClassifiedByTokens(lex, seg, prefix.Tokens() + words);
    PrefixIsInvisible(prefix, words);
    hide FromAllTokens;
  }

  /** A prefix alone runs nothing, and so does `env` whose last option lacks its argument. */
  lemma NothingToRun(lex: Tokenizer, seg: string, prefix: Prefix, dangling: bool)
    requires prefix.Valid() && (dangling ==> prefix.env)
    requires SplitsInto(lex, seg, prefix.Tokens() + (if dangling then ["-u"] else []))
    ensures Classify(lex, seg) == Nothing
  {
    var words := if dangling then ["-u"] else [];
    hide Classify, SplitsInto, IsAssignment, EnvOptions, AllAssignments, DropAssignments;
    ClassifiedByTokens(lex, seg, prefix.Tokens() + words);
    if dangling { BehindEnv(prefix, words); } else { PrefixIsInvisible(prefix, words); }
  }

  /** Blank segments stand for nothing, a subshell for its inside, and what the tokenizer refuses is malformed. */
  lemma OtherSegments(lex: Tokenizer, seg: string)
    ensures Strip(seg) == "" ==> Classify(lex, seg) == Nothing
    ensures forall r :: Strip(seg) == "(" + r + ")" && Balanced(r) ==> Classify(lex, seg) == Nested(r)
    ensures Classify(lex, seg) == Malformed <==>
              Strip(seg) != "" && !InBalancedParens(Strip(seg)) && lex(Strip(seg)) == None
  {
    hide Strip, Balanced, Joined, EnvArguments, DropAssignments, AfterGitOptions;
    var text := Strip(seg);
    SubshellIs(text);
    forall r | text == "(" + r + ")" && Balanced(r) ensures Classify(lex, seg) == Nested(r) {
      assert text[1..|text| - 1] == r;
    }
  }

  // --------------------------------------------------- no other shape is left

  /** The shapes of a token list, as the lemmas above name them. */
  datatype Shape =
    | Git(options: seq<string>, rest: seq<string>)
    | Shell(shell: string, command: seq<string>)
    | SplitString(after: seq<string>)
    | Ordinary(words: seq<string>)
    | Empty(dangling: bool)

  ghost predicate HasShape(tokens: seq<string>, prefix: Prefix, shape: Shape) {
    && prefix.Valid()
    && match shape
       case Git(options, rest) =>
         GitOptions(options) && AtSubcommand(rest) && tokens == prefix.Tokens() + (["git"] + options + rest)
       case Shell(shell, command) =>
         IsInterpreter(shell) && command != [] && tokens == prefix.Tokens() + ([shell, "-c"] + command)
       case SplitString(after) => prefix.env && tokens == prefix.Tokens() + (["-S"] + after)
       case Ordinary(words) => IsOrdinary(words) && Starts(prefix, words[0]) && tokens == prefix.Tokens() + words
       case Empty(dangling) =>
         (dangling ==> prefix.env) && tokens == prefix.Tokens() + (if dangling then ["-u"] else [])
  }

  lemma {:induction false} LeadingAssignments(tokens: seq<string>) returns (assignments: seq<string>, rest: seq<string>)
    ensures tokens == assignments + rest && AllAssignments(assignments) && (rest == [] || !IsAssignment(rest[0]))
    decreases |tokens|
  {
    hide IsAssignment;
    assignments, rest := [], tokens;
    if tokens != [] && IsAssignment(tokens[0]) {
      assignments, rest := LeadingAssignments(tokens[1..]);
      assert tokens == ([tokens[0]] + assignments) + rest;
      assignments := [tokens[0]] + assignments;
    }
  }

  /** The words that are run, behind a prefix, have a shape. */
  lemma WordsHaveAShape(prefix: Prefix, words: seq<string>) returns (shape: Shape)
    requires prefix.Valid() && (words == [] || Starts(prefix, words[0]))
    ensures HasShape(prefix.Tokens() + words, prefix, shape)
  {
    hide IsAssignment, GitOptions, AtSubcommand, EnvOptions, AllAssignments;
    if words == [] {
      shape := Empty(false);
    } else if words[0] == "git" {
      var options := GitStopsAtSubcommand(words[1..]);
      var rest := AfterGitOptions(words[1..]);
      assert words == ["git"] + options + rest;
      shape := Git(options, rest);
    } else if IsInterpreter(words[0]) && |words| >= 3 && words[1] == "-c" {
      assert words == [words[0], "-c"] + words[2..];
      shape := Shell(words[0], words[2..]);
    } else {
      shape := Ordinary(words);
    }
  }

  /** Every token list has one of the shapes. */
  lemma EveryTokenListHasAShape(tokens: seq<string>) returns (prefix: Prefix, shape: Shape)
    ensures HasShape(tokens, prefix, shape)
  {
    hide HasShape, IsAssignment;
    var assignments, rest := LeadingAssignments(tokens);
    if rest != [] && rest[0] == "env" {
      var options, words := EnvRunsItsCommand(rest[1..]);
      prefix := Prefix(assignments, true, options);
      assert rest == ["env"] + options + words;
      assert tokens == prefix.Tokens() + words;
      shape := EnvWordsHaveAShape(prefix, words, EnvArguments(rest[1..]));
    } else {
      prefix := Prefix(assignments, false, []);
      assert tokens == prefix.Tokens() + rest;
      shape := WordsHaveAShape(prefix, rest);
    }
  }

  lemma EnvWordsHaveAShape(prefix: Prefix, words: seq<string>, target: EnvTarget) returns (shape: Shape)
    requires prefix.Valid() && prefix.env && EnvRuns(words, target)
    ensures HasShape(prefix.Tokens() + words, prefix, shape)
  {
    hide IsAssignment, EnvOptions, AllAssignments;
    if words == ["-u"] {
      shape := Empty(true);
    } else if words != [] && words[0] == "-S" {
      assert words == ["-S"] + words[1..];
      shape := SplitString(words[1..]);
    } else {
      shape := WordsHaveAShape(prefix, words);
    }
  }

  // ---------------------------------------------------------- white space

  /** Stripping takes off white space at both ends, all of it, and nothing else. */
  lemma StripTakesSpaceOnly(s: string) returns (left: string, right: string)
    ensures s == left + Strip(s) + right
    ensures (forall c :: c in left ==> IsSpace(c)) && (forall c :: c in right ==> IsSpace(c))
    ensures Strip(s) != "" ==> !IsSpace(Strip(s)[0]) && !IsSpace(Strip(s)[|Strip(s)| - 1])
  {
    hide IsSpace, TrimLeft, TrimRight;
    left := TrimmedLeft(s);
    right := TrimmedRight(TrimLeft(s));
    if Strip(s) != "" { assert TrimLeft(s)[0] == Strip(s)[0]; }
  }

  lemma {:induction false} TrimmedLeft(s: string) returns (left: string)
    ensures s == left + TrimLeft(s) && (forall c :: c in left ==> IsSpace(c))
    ensures TrimLeft(s) != "" ==> !IsSpace(TrimLeft(s)[0])
  {
    hide IsSpace;
    left := "";
    if s != "" && IsSpace(s[0]) {
      var more := TrimmedLeft(s[1..]);
      left := [s[0]] + more;
    }
  }

  lemma {:induction false} TrimmedRight(s: string) returns (right: string)
    ensures s == TrimRight(s) + right && (forall c :: c in right ==> IsSpace(c))
    ensures TrimRight(s) != "" ==> !IsSpace(TrimRight(s)[|TrimRight(s)| - 1])
  {
    hide IsSpace;
    right := "";
    if s != "" && IsSpace(s[|s| - 1]) {
      var more := TrimmedRight(s[..|s| - 1]);
      right := more + [s[|s| - 1]];
    }
  }

  // ------------------------------------------------------- the whole command

  /** A command line that is one segment and peels no group normalises to what its segment stands for: nothing, the
      sentinel, the command text, or what is nested in it, read one level deeper. */
  lemma OneSegmentCommand(lex: Tokenizer, raw: string, depth: nat)
    requires NoGroups(raw) && Segments(raw) == [raw] && depth <= 3
    ensures NormalForm(lex, raw, depth) ==
            match Classify(lex, raw)
            case Nothing => []
            case Malformed => ["__UNPARSEABLE__"]
            case Command(text) => [text]
            case Nested(command) => if depth == 3 then ["__UNPARSEABLE__"] else NormalForm(lex, command, depth + 1)
    ensures NormalForm(lex, raw, depth + 4) == ["__UNPARSEABLE__"]
  {
    NothingToExtract(raw);
    hide Pieces, Outside, Inners, Segments, Classify;
    NormalFormOf(lex, raw, depth);
    assert [raw][1..] == [];
    assert NormalInners(lex, [], depth) == [];
    assert NormalSegments(lex, [raw], depth) == NormalSegment(lex, raw, depth) + [];
  }

  /** So `git`, global options, `push`, written as one segment in any prefix, normalises to `git push` and its
      arguments. */
  lemma GitCommandNormalizes(lex: Tokenizer, raw: string, prefix: Prefix, options: seq<string>, rest: seq<string>)
    requires NoGroups(raw) && Segments(raw) == [raw]
    requires prefix.Valid() && GitOptions(options) && AtSubcommand(rest)
    requires SplitsInto(lex, raw, prefix.Tokens() + (["git"] + options + rest))
    ensures NormalForm(lex, raw, 0) == [Joined(["git"] + rest)]
  {
    hide *;
    GitCommand(lex, raw, prefix, options, rest);
    OneSegmentCommand(lex, raw, 0);
  }
}
