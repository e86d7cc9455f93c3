/** Normalising a shell command into the list of commands a policy looks at, unwrapping `env`, `sh -c`, subshells and
    `$(...)`. */
module CommandNormalize {
  import opened Common
  import opened ShellScan

  const UNPARSEABLE := "__UNPARSEABLE__"
  const MAX_RECURSE_DEPTH := 3

  const SHELL_INTERPRETERS := {"sh", "bash", "zsh", "dash", "ksh"}

  const GIT_OPTS_WITH_ARG := {"-C", "-c", "--git-dir", "--work-tree", "--namespace", "--super-prefix", "--config-env",
                              "--exec-path"}

  const GIT_BARE_OPTS := {"--no-pager", "-p", "-P", "--paginate", "--bare", "--literal-pathspecs", "--glob-pathspecs",
                          "--noglob-pathspecs", "--icase-pathspecs", "--no-replace-objects", "--no-optional-locks",
                          "--no-lazy-fetch", "--no-advice"}

  /** `shlex.split`: the tokens of a text, or nothing when its quotes do not close. */
  type Tokenizer = string -> Option<seq<string>>

  // ------------------------------------------------------------------- text

  /** The characters Python's `str.strip` takes for white space. */
  predicate IsSpace(c: char) {
    var u := c as int;
    || 0x09 <= u <= 0x0D || 0x1C <= u <= 0x20 || u == 0x85 || u == 0xA0 || u == 0x1680
    || 0x2000 <= u <= 0x200A || u == 0x2028 || u == 0x2029 || u == 0x202F || u == 0x205F || u == 0x3000
  }

  function TrimLeft(s: string): (r: string)
    ensures |r| <= |s|
  {
    if s != "" && IsSpace(s[0]) then TrimLeft(s[1..]) else s
  }

  function TrimRight(s: string): (r: string)
    ensures |r| <= |s|
  {
    if s != "" && IsSpace(s[|s| - 1]) then TrimRight(s[..|s| - 1]) else s
  }

  function Strip(s: string): (r: string)
    ensures |r| <= |s|
  {
    TrimRight(TrimLeft(s))
  }

  function Joined(tokens: seq<string>): string {
    if tokens == [] then ""
    else if |tokens| == 1 then tokens[0]
    else tokens[0] + " " + Joined(tokens[1..])
  }

  // ------------------------------------------------------- env and git tokens

  predicate IsNameStart(c: char) {
    'A' <= c <= 'Z' || 'a' <= c <= 'z' || c == '_'
  }

  predicate NameThenEquals(s: string) {
    s != "" && (s[0] == '=' || ((IsNameStart(s[0]) || '0' <= s[0] <= '9') && NameThenEquals(s[1..])))
  }

  /** `NAME=`, with anything after it. */
  predicate IsAssignment(token: string) {
    token != "" && IsNameStart(token[0]) && NameThenEquals(token[1..])
  }

  function DropAssignments(tokens: seq<string>): (r: seq<string>)
    ensures |r| <= |tokens| && r == tokens[|tokens| - |r|..]
  {
    if tokens != [] && IsAssignment(tokens[0]) then DropAssignments(tokens[1..]) else tokens
  }

  method StripLeadingEnvAssignments(tokens: seq<string>) returns (r: seq<string>)
    ensures r == DropAssignments(tokens)
  {
    var i := 0;
    assert tokens[0..] == tokens;
    while i < |tokens| && IsAssignment(tokens[i])
      invariant 0 <= i <= |tokens|
      invariant DropAssignments(tokens[i..]) == DropAssignments(tokens)
    {
      assert tokens[i..][1..] == tokens[i + 1..];
      i := i + 1;
    }
    r := tokens[i..];
  }

  /** What `env` runs: a token list, or for `-S` one command text still to be split. */
  datatype EnvTarget = Tokens(tokens: seq<string>) | Text(command: string)

  /** `args` is what follows the word `env`. */
  function EnvArguments(args: seq<string>): EnvTarget {
    if args == [] then Tokens([])
    else if args[0] == "-S" then Text(if |args| > 1 then args[1] else "")
    else if args[0] == "-u" then if |args| > 1 then EnvArguments(args[2..]) else Tokens([])
    else if args[0] == "-i" || IsAssignment(args[0]) then EnvArguments(args[1..])
    else Tokens(args)
  }

  method UnwrapEnv(tokens: seq<string>) returns (remaining: seq<string>, command: Option<string>)
    requires tokens != []
    ensures match EnvArguments(tokens[1..])
            case Tokens(ts) => remaining == ts && command == None
            case Text(c) => remaining == [] && command == Some(c)
  {
    var j, n := 1, |tokens|;
    while j < n
      invariant 1 <= j <= n + 1
      invariant EnvArguments(tokens[if j <= n then j else n..]) == EnvArguments(tokens[1..])
      decreases n - j
    {
      var t := tokens[j];
      ghost var args := tokens[j..];
      assert args[1..] == tokens[j + 1..];
      assert j + 1 < n ==> args[2..] == tokens[j + 2..];
      if t == "-S" {
        return [], Some(if j + 1 < n then tokens[j + 1] else "");
      }
      if t == "-i" {
        j := j + 1;
        continue;
      }
      if t == "-u" {
        j := j + 2;
        continue;
      }
      if IsAssignment(t) {
        j := j + 1;
        continue;
      }
      break;
    }
    remaining, command := tokens[if j <= n then j else n..], None;
  }

  predicate TakesArgument(t: string) {
    t in GIT_OPTS_WITH_ARG
  }

  predicate IsBareOption(t: string) {
    t in GIT_BARE_OPTS
  }

  /** `--opt=value`, for an option that takes a value. */
  predicate HasInlineValue(t: string) {
    exists opt :: opt in GIT_OPTS_WITH_ARG && opt + "=" <= t
  }

  /** `args` is what follows the word `git`. */
  function AfterGitOptions(args: seq<string>): (r: seq<string>)
    ensures |r| <= |args|
  {
    if args == [] then []
    else if TakesArgument(args[0]) && |args| > 1 then AfterGitOptions(args[2..])
    else if HasInlineValue(args[0]) || IsBareOption(args[0]) then AfterGitOptions(args[1..])
    else args
  }

  method StripGitGlobalOpts(tokens: seq<string>) returns (r: seq<string>)
    requires tokens != []
    ensures r == [tokens[0]] + AfterGitOptions(tokens[1..])
  {
    hide HasInlineValue, TakesArgument, IsBareOption;
    r := [tokens[0]];
    var i, n := 1, |tokens|;
    while i < n
      invariant 1 <= i <= n
      invariant AfterGitOptions(tokens[i..]) == AfterGitOptions(tokens[1..])
      decreases n - i
    {
      var t := tokens[i];
      ghost var args := tokens[i..];
      assert args[1..] == tokens[i + 1..];
      assert i + 1 < n ==> args[2..] == tokens[i + 2..];
      if TakesArgument(t) && i + 1 < n {
        i := i + 2;
        continue;
      }
      if HasInlineValue(t) {
        i := i + 1;
        continue;
      }
      if IsBareOption(t) {
        i := i + 1;
        continue;
      }
      break;
    }
    r := r + tokens[i..];
  }

  // ------------------------------------------------------------ one segment

  /** What one segment stands for, before any limit on nesting. */
  datatype Segment = Nothing | Malformed | Command(text: string) | Nested(command: string)

  function FromTokens(tokens: seq<string>): Segment {
    if tokens == [] then Nothing
    else if tokens[0] in SHELL_INTERPRETERS && |tokens| >= 3 && tokens[1] == "-c" then Nested(Joined(tokens[2..]))
    else if tokens[0] == "git" then Command(Joined(["git"] + AfterGitOptions(tokens[1..])))
    else Command(Joined(tokens))
  }

  function FromAllTokens(all: seq<string>): Segment {
    var tokens := DropAssignments(all);
    if tokens != [] && tokens[0] == "env" then
      match EnvArguments(tokens[1..])
      case Text(c) => Nested(c)
      case Tokens(ts) => FromTokens(ts)
    else FromTokens(tokens)
  }

  ghost predicate IsSubshell(text: string) {
    |text| >= 2 && text[0] == '(' && text[|text| - 1] == ')' && Balanced(text[1..|text| - 1])
  }

  ghost function Classify(lex: Tokenizer, seg: string): Segment {
    var text := Strip(seg);
    if text == "" then Nothing
    else if IsSubshell(text) then Nested(text[1..|text| - 1])
    else
      match lex(text)
      case None => Malformed
      case Some(all) => FromAllTokens(all)
  }

  // ------------------------------------------------------- the normal form

  function Left(depth: nat): nat {
    if depth > MAX_RECURSE_DEPTH then 0 else MAX_RECURSE_DEPTH + 1 - depth
  }

  /** The normal form of `raw` met at nesting `depth`; at most `Left(depth)` levels are entered below it. */
  ghost function NormalForm(lex: Tokenizer, raw: string, depth: nat): seq<string>
    decreases Left(depth), 3
  {
    if depth > MAX_RECURSE_DEPTH then [UNPARSEABLE]
    else
      var pieces := Pieces(raw);
      NormalInners(lex, Inners(pieces), depth) + NormalSegments(lex, Segments(Outside(pieces)), depth)
  }

  ghost function NormalInners(lex: Tokenizer, inners: seq<string>, depth: nat): seq<string>
    requires depth <= MAX_RECURSE_DEPTH
    decreases Left(depth), 2, |inners|
  {
    if inners == [] then []
    else NormalForm(lex, inners[0], depth + 1) + NormalInners(lex, inners[1..], depth)
  }

  ghost function NormalSegments(lex: Tokenizer, segments: seq<string>, depth: nat): seq<string>
    requires depth <= MAX_RECURSE_DEPTH
    decreases Left(depth), 2, |segments|
  {
    if segments == [] then []
    else NormalSegment(lex, segments[0], depth) + NormalSegments(lex, segments[1..], depth)
  }

  ghost function NormalSegment(lex: Tokenizer, seg: string, depth: nat): seq<string>
    requires depth <= MAX_RECURSE_DEPTH
    decreases Left(depth), 1
  {
    match Classify(lex, seg)
    case Nothing => []
    case Malformed => [UNPARSEABLE]
    case Command(text) => [text]
    case Nested(command) => if depth >= MAX_RECURSE_DEPTH then [UNPARSEABLE] else NormalForm(lex, command, depth + 1)
  }

  lemma NormalInnersSnoc(lex: Tokenizer, inners: seq<string>, i: nat, depth: nat)
    requires i < |inners| && depth <= MAX_RECURSE_DEPTH
    ensures NormalInners(lex, inners[i..], depth) == NormalForm(lex, inners[i], depth + 1)
            + NormalInners(lex, inners[i + 1..], depth)
  {
    hide NormalForm;
    assert inners[i..][1..] == inners[i + 1..];
  }

  lemma NormalSegmentsSnoc(lex: Tokenizer, segments: seq<string>, i: nat, depth: nat)
    requires i < |segments| && depth <= MAX_RECURSE_DEPTH
    ensures NormalSegments(lex, segments[i..], depth)
         == NormalSegment(lex, segments[i], depth) + NormalSegments(lex, segments[i + 1..], depth)
  {
    hide NormalSegment;
    assert segments[i..][1..] == segments[i + 1..];
  }

  method NormalizeCommand(lex: Tokenizer, raw: string, depth: nat) returns (out: seq<string>)
    ensures out == NormalForm(lex, raw, depth)
    decreases Left(depth), 3
  {
    hide Segments, Pieces, Inners, Outside, NormalInners, NormalSegments;
    if depth > MAX_RECURSE_DEPTH {
      return [UNPARSEABLE];
    }
    var text, dollarInners := ExtractDollarParen(raw);
    hide NormalForm, NormalSegment;
    out := [];
    ghost var all := NormalInners(lex, dollarInners, depth);
    var i := 0;
    assert dollarInners[0..] == dollarInners;
    while i < |dollarInners|
      invariant 0 <= i <= |dollarInners|
      invariant out + NormalInners(lex, dollarInners[i..], depth) == all
    {
      var inner := NormalizeCommand(lex, dollarInners[i], depth + 1);
      NormalInnersSnoc(lex, dollarInners, i, depth);
      Regroup(out, inner, NormalInners(lex, dollarInners[i + 1..], depth));
      out := out + inner;
      i := i + 1;
    }
    NothingNormal(lex, dollarInners, depth);
    assert out == all;
    var segments := SplitTopLevel(text);
    ghost var whole := all + NormalSegments(lex, segments, depth);
    i := 0;
    assert segments[0..] == segments;
    while i < |segments|
      invariant 0 <= i <= |segments|
      invariant out + NormalSegments(lex, segments[i..], depth) == whole
    {
      var seg := NormalizeOneSegment(lex, segments[i], depth);
      NormalSegmentsSnoc(lex, segments, i, depth);
      Regroup(out, seg, NormalSegments(lex, segments[i + 1..], depth));
      out := out + seg;
      i := i + 1;
    }
    NothingNormal(lex, segments, depth);
    NormalFormOf(lex, raw, depth);
  }

  lemma NothingNormal(lex: Tokenizer, texts: seq<string>, depth: nat)
    requires depth <= MAX_RECURSE_DEPTH
    ensures NormalInners(lex, texts[|texts|..], depth) == [] && NormalSegments(lex, texts[|texts|..], depth) == []
  {}

  lemma NormalFormOf(lex: Tokenizer, raw: string, depth: nat)
    requires depth <= MAX_RECURSE_DEPTH
    ensures NormalForm(lex, raw, depth)
         == NormalInners(lex, Inners(Pieces(raw)), depth) + NormalSegments(lex, Segments(Outside(Pieces(raw))), depth)
  {}

  lemma Regroup(a: seq<string>, b: seq<string>, c: seq<string>)
    ensures a + (b + c) == (a + b) + c
  {}

  method NormalizeOneSegment(lex: Tokenizer, seg: string, depth: nat) returns (out: seq<string>)
    requires depth <= MAX_RECURSE_DEPTH
    ensures out == NormalSegment(lex, seg, depth)
    decreases Left(depth), 1
  {
    hide NormalForm, IsAssignment, DropAssignments, EnvArguments, AfterGitOptions, Joined, Balanced, Strip;
    var stripped := Strip(seg);
    if stripped == "" {
      return [];
    }
    if stripped[0] == '(' && stripped[|stripped| - 1] == ')' && |stripped| >= 2 {
      var balanced := IsBalanced(stripped[1..|stripped| - 1]);
      if balanced {
        if depth >= MAX_RECURSE_DEPTH {
          return [UNPARSEABLE];
        }
        out := NormalizeCommand(lex, stripped[1..|stripped| - 1], depth + 1);
        return;
      }
    }
    var split := lex(stripped);
    if split == None {
      return [UNPARSEABLE];
    }
    var tokens := StripLeadingEnvAssignments(split.value);
    if tokens == [] {
      return [];
    }
    if tokens[0] == "env" {
      var recurse: Option<string>;
      tokens, recurse := UnwrapEnv(tokens);
      if recurse != None {
        if depth >= MAX_RECURSE_DEPTH {
          return [UNPARSEABLE];
        }
        out := NormalizeCommand(lex, recurse.value, depth + 1);
        return;
      }
      if tokens == [] {
        return [];
      }
    }
    if tokens[0] in SHELL_INTERPRETERS && |tokens| >= 3 && tokens[1] == "-c" {
      if depth >= MAX_RECURSE_DEPTH {
        return [UNPARSEABLE];
      }
      out := NormalizeCommand(lex, Joined(tokens[2..]), depth + 1);
      return;
    }
    if tokens[0] == "git" {
      tokens := StripGitGlobalOpts(tokens);
    }
    out := [Joined(tokens)];
  }
}
