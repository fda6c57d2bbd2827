/** The compatibility launcher `post-to-sns`: it turns its own arguments
    into those of the command-line tool, which it then starts (the process
    itself is left out). */
module Launcher {
  import opened Strings

  const DefaultCommand: string := "run"

  /** The arguments passed on: `run` when there are none, `run` in front
      of options, the arguments unchanged when they begin with a
      command. */
  function CliArgs(args: seq<string>): seq<string> {
    if |args| > 0 then
      if StartsWith(args[0], "--") || StartsWith(args[0], "-") then [DefaultCommand] + args
      else args
    else [DefaultCommand]
  }

  /** The command the tool runs is always the first argument passed on,
      the arguments given are never reordered or dropped, and at most one
      argument is added. */
  lemma CliArgsShape(args: seq<string>)
    ensures CliArgs(args) != []
    ensures |args| <= |CliArgs(args)| <= |args| + 1
    ensures CliArgs(args)[|CliArgs(args)| - |args|..] == args
    ensures args == [] ==> CliArgs(args) == [DefaultCommand]
    ensures args != [] && StartsWith(args[0], "-") ==> CliArgs(args) == [DefaultCommand] + args
    ensures args != [] && !StartsWith(args[0], "-") ==> CliArgs(args) == args
  {
    if args != [] && StartsWith(args[0], "--") {
      assert args[0][..1] == args[0][..2][..1];
    }
  }

  /** Passing the arguments on a second time changes nothing: the result
      always begins with a command. */
  lemma CliArgsIdempotent(args: seq<string>)
    ensures CliArgs(CliArgs(args)) == CliArgs(args)
  {
    CliArgsShape(args);
    assert !StartsWith(DefaultCommand, "-") by {
      assert DefaultCommand[0] == 'r';
    }
  }
}
