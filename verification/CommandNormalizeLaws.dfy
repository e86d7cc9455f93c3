/** What the normaliser skips of `env` and `git` command lines: runs of options, which change nothing. */
module CommandNormalizeLaws {
  import opened CommandNormalize

  /** Tokens joined by single spaces are no longer than the text they came from. */
  ghost predicate Frugal(lex: Tokenizer) {
    forall s :: lex(s).Some? ==> |Joined(lex(s).value)| <= |s|
  }

  // ---------------------------------------------------- env and git wrappers

  /** A run of git options, each with its argument where it takes one. */
  predicate GitOptions(options: seq<string>) {
    if options == [] then true
    else if TakesArgument(options[0]) then |options| > 1 && GitOptions(options[2..])
    else (HasInlineValue(options[0]) || IsBareOption(options[0])) && GitOptions(options[1..])
  }

  /** The subcommand position: nothing left, an option whose argument is missing, or a word that is no global option. */
  predicate AtSubcommand(args: seq<string>) {
    if args == [] then true
    else if TakesArgument(args[0]) then |args| == 1
    else !HasInlineValue(args[0]) && !IsBareOption(args[0])
  }

  lemma InlineValueHasEquals(t: string)
    requires HasInlineValue(t)
    ensures '=' in t
  {
    var opt :| opt in GIT_OPTS_WITH_ARG && opt + "=" <= t;
    assert t[|opt|] == '=';
  }

  lemma ArgumentOptionShape(t: string)
    requires TakesArgument(t)
    ensures '=' !in t
    ensures |t| == 2 || |t| == 9 || |t| == 11 || |t| == 12 || |t| == 14
    ensures |t| == 2 ==> t[1] != 'p' && t[1] != 'P'
    ensures |t| == 11 ==> t[4] != '-'
  {}

  lemma BareOptionShape(t: string)
    requires IsBareOption(t)
    ensures !(|t| == 9 || |t| == 12 || |t| == 14)
    ensures |t| == 2 ==> t[1] == 'p' || t[1] == 'P'
    ensures |t| == 11 ==> t[4] == '-'
  {}

  lemma OptionKindsAreApart(t: string)
    requires HasInlineValue(t) || IsBareOption(t)
    ensures !TakesArgument(t)
  {
    hide *;
    if HasInlineValue(t) { InlineValueHasEquals(t); } else { BareOptionShape(t); }
    if TakesArgument(t) { ArgumentOptionShape(t); }
  }

  lemma OneInFront(args: seq<string>, more: seq<string>, rest: seq<string>)
    requires |args| >= 1 && args[1..] == more + rest
    ensures args == [args[0]] + more + rest && ([args[0]] + more)[1..] == more
  {}

  lemma TwoInFront(args: seq<string>, more: seq<string>, rest: seq<string>)
    requires |args| >= 2 && args[2..] == more + rest
    ensures args == [args[0], args[1]] + more + rest && ([args[0], args[1]] + more)[2..] == more
  {}

  /** The words the normaliser drops after `git` are a run of global options, and it stops at the subcommand. */
  lemma {:induction false} GitStopsAtSubcommand(args: seq<string>) returns (options: seq<string>)
    ensures args == options + AfterGitOptions(args)
    ensures GitOptions(options) && AtSubcommand(AfterGitOptions(args))
    decreases |args|
  {
    hide HasInlineValue, TakesArgument, IsBareOption;
    options := [];
    if args == [] {
    } else if TakesArgument(args[0]) && |args| > 1 {
      var more := GitStopsAtSubcommand(args[2..]);
      options := [args[0], args[1]] + more;
      TwoInFront(args, more, AfterGitOptions(args[2..]));
    } else if HasInlineValue(args[0]) || IsBareOption(args[0]) {
      var more := GitStopsAtSubcommand(args[1..]);
      options := [args[0]] + more;
      OneInFront(args, more, AfterGitOptions(args[1..]));
      OptionKindsAreApart(args[0]);
    }
  }

  /** Global options in front of a git command change nothing. */
  lemma {:induction false} GitOptionsAreInvisible(options: seq<string>, args: seq<string>)
    requires GitOptions(options)
    ensures AfterGitOptions(options + args) == AfterGitOptions(args)
    decreases |options|
  {
    hide HasInlineValue, TakesArgument, IsBareOption;
    if options == [] {
      assert options + args == args;
    } else if TakesArgument(options[0]) {
      GitOptionsAreInvisible(options[2..], args);
      assert (options + args)[2..] == options[2..] + args;
    } else {
      GitOptionsAreInvisible(options[1..], args);
      assert (options + args)[1..] == options[1..] + args;
    }
  }

  /** `-i`, `-u NAME` and assignments, as they may stand between `env` and its command. */
  predicate EnvOptions(options: seq<string>) {
    if options == [] then true
    else if options[0] == "-u" then |options| > 1 && EnvOptions(options[2..])
    else (options[0] == "-i" || IsAssignment(options[0])) && EnvOptions(options[1..])
  }

  /** What the words left over stand for, when the first of them is no option that goes on. */
  predicate EnvRuns(rest: seq<string>, target: EnvTarget) {
    if rest == [] || rest == ["-u"] then target == Tokens([])
    else if rest[0] == "-S" then target == Text(if |rest| > 1 then rest[1] else "")
    else target == Tokens(rest) && rest[0] != "-u" && rest[0] != "-i" && !IsAssignment(rest[0])
  }

  lemma {:induction false} EnvRunsItsCommand(args: seq<string>) returns (options: seq<string>, rest: seq<string>)
    ensures args == options + rest && EnvOptions(options) && EnvRuns(rest, EnvArguments(args))
    decreases |args|
  {
    hide IsAssignment;
    options, rest := [], args;
    if args == [] || args[0] == "-S" {
    } else if args[0] == "-u" {
      if |args| > 1 {
        var more, last := EnvRunsItsCommand(args[2..]);
        options, rest := [args[0], args[1]] + more, last;
        TwoInFront(args, more, last);
      }
    } else if args[0] == "-i" || IsAssignment(args[0]) {
      var more, last := EnvRunsItsCommand(args[1..]);
      options, rest := [args[0]] + more, last;
      OneInFront(args, more, last);
    }
  }

  lemma {:induction false} EnvOptionsAreInvisible(options: seq<string>, args: seq<string>)
    requires EnvOptions(options)
    ensures EnvArguments(options + args) == EnvArguments(args)
    decreases |options|
  {
    hide IsAssignment;
    if options == [] {
      assert options + args == args;
    } else if options[0] == "-u" {
      EnvOptionsAreInvisible(options[2..], args);
      assert (options + args)[2..] == options[2..] + args;
    } else {
      NoDash(options[0]);
      EnvOptionsAreInvisible(options[1..], args);
      assert (options + args)[1..] == options[1..] + args;
    }
  }

  lemma NoDash(t: string)
    ensures IsAssignment(t) ==> t != "-S" && t != "-u" && t != "-i"
  {}
}
