/**
 * raz::CommandLineParser (include/raz/cmdline.hpp): a map from command
 * names to commands, each with a fixed number of arguments. parse walks the
 * tokens left to right; a token naming a command takes the next tokens as
 * its arguments and the command runs, any other token is skipped.
 *
 * Commands are not executed here: a run is described by the invocations it
 * makes, in order, and by whether it ended with std::out_of_range. The
 * callables behind commands are opaque, named by an identifier; arguments
 * stay strings (their stringstream conversion is not modelled).
 */
module Cmdline {
  import opened Wrappers

  /** Cmd: the callable (m_func) and the number of its parameters (m_args). */
  datatype Cmd = Cmd(callable: nat, arity: nat)

  /** One call of a command's function: the token it was found at, the command and its arguments. */
  datatype Invocation = Invocation(at: nat, name: string, cmd: Cmd, args: seq<string>)

  /** The calls a parse made, and whether it ended by throwing std::out_of_range. */
  datatype Outcome = Outcome(calls: seq<Invocation>, failed: bool)

  /** std::out_of_range from CmdArgs::at */
  datatype OutOfRange = OutOfRange

  /**
   * convertArgs<Arg_pos, ...>(args, pos): the n arguments from position pos
   * on, each read with args.at, which throws when the position is missing.
   */
  function ConvertArgs(args: seq<string>, pos: nat, n: nat): (r: Result<seq<string>, OutOfRange>)
    decreases n
  {
    if n == 0 then Ok([])
    else if pos >= |args| then Err(OutOfRange)
    else match ConvertArgs(args, pos + 1, n - 1)
      case Err(e) => Err(e)
      case Ok(rest) => Ok([args[pos]] + rest)
  }

  /** Converting n arguments succeeds exactly when there are n of them, and yields them in order. */
  lemma {:induction false} ConvertArgsSucceeds(args: seq<string>, pos: nat, n: nat)
    requires pos <= |args|
    ensures ConvertArgs(args, pos, n).Ok? <==> pos + n <= |args|
    ensures ConvertArgs(args, pos, n).Ok? ==> ConvertArgs(args, pos, n).value == args[pos..pos + n]
    decreases n
  {
    if n > 0 && pos < |args| {
      ConvertArgsSucceeds(args, pos + 1, n - 1);
      if pos + n <= |args| {
        assert args[pos..pos + n] == [args[pos]] + args[pos + 1..pos + n];
      }
    }
  }

  /**
   * Cmd::getCmdArgs: the tokens from `it` on, as long as there are tokens
   * and fewer than m_args have been taken; `it` ends past them.
   */
  method GetCmdArgs(cmd: Cmd, tokens: seq<string>, it: nat) returns (args: seq<string>, next: nat)
    requires it <= |tokens|
    ensures |args| == Min(cmd.arity, |tokens| - it)
    ensures next == it + |args| && args == tokens[it..next]
  {
    args := [];
    next := it;
    while next < |tokens| && |args| < cmd.arity
      invariant it <= next <= |tokens| && |args| <= cmd.arity
      invariant args == tokens[it..next]
    {
      args := args + [tokens[next]];
      next := next + 1;
    }
  }

  /** Where the argument tokens of an invocation end. */
  function End(inv: Invocation): nat
  {
    inv.at + 1 + |inv.args|
  }

  /** The invocation is the command token at `at` followed by exactly its arity of argument tokens. */
  ghost predicate WellPlaced(commands: map<string, Cmd>, tokens: seq<string>, inv: Invocation)
  {
    && End(inv) <= |tokens|
    && tokens[inv.at] == inv.name && inv.name in commands && inv.cmd == commands[inv.name]
    && |inv.args| == inv.cmd.arity && inv.args == tokens[inv.at + 1..End(inv)]
  }

  /** No token in positions a .. b - 1 names a command. */
  ghost predicate Skipped(commands: map<string, Cmd>, tokens: seq<string>, a: nat, b: nat)
  {
    a <= b <= |tokens| && forall q :: a <= q < b ==> tokens[q] !in commands
  }

  /** calls followed by what the rest of a parse does. */
  function Then(calls: seq<Invocation>, o: Outcome): Outcome
  {
    Outcome(calls + o.calls, o.failed)
  }

  /**
   * The scan from position i on made the calls `calls` and failed or not:
   * before each call every token is unknown and skipped; each call is a
   * known token and the arity tokens after it, which are not looked up;
   * after the last call the rest is skipped, or the scan fails at a known
   * token followed by fewer tokens than its arity.
   */
  ghost predicate Describes(commands: map<string, Cmd>, tokens: seq<string>, i: nat, calls: seq<Invocation>, failed: bool)
    decreases |calls|
  {
    if |calls| == 0 then
      && (!failed ==> Skipped(commands, tokens, i, |tokens|))
      && (failed ==> exists p: nat :: Skipped(commands, tokens, i, p) && p < |tokens|
                                     && tokens[p] in commands && p + 1 + commands[tokens[p]].arity > |tokens|)
    else
      && Skipped(commands, tokens, i, calls[0].at)
      && WellPlaced(commands, tokens, calls[0])
      && Describes(commands, tokens, End(calls[0]), calls[1..], failed)
  }

  /** What parse does with the tokens from position i on. */
  function Run(commands: map<string, Cmd>, tokens: seq<string>, i: nat): (o: Outcome)
    requires i <= |tokens|
    decreases |tokens| - i
  {
    if i == |tokens| then Outcome([], false)
    else if tokens[i] !in commands then Run(commands, tokens, i + 1)
    else
      var cmd := commands[tokens[i]];
      var given := tokens[i + 1..i + 1 + Min(cmd.arity, |tokens| - (i + 1))];
      match ConvertArgs(given, 0, cmd.arity)
      case Err(_) => Outcome([], true)
      case Ok(args) =>
        ConvertArgsSucceeds(given, 0, cmd.arity);
        var inv := Invocation(i, tokens[i], cmd, args);
        Then([inv], Run(commands, tokens, End(inv)))
  }

  /** A command token whose arguments convert: the parse makes its call and goes on after the arguments. */
  lemma CallStep(commands: map<string, Cmd>, tokens: seq<string>, calls: seq<Invocation>, at: nat, args: seq<string>)
    requires at < |tokens| && tokens[at] in commands
    requires var cmd := commands[tokens[at]];
      ConvertArgs(tokens[at + 1..at + 1 + Min(cmd.arity, |tokens| - (at + 1))], 0, cmd.arity) == Ok(args)
    ensures var inv := Invocation(at, tokens[at], commands[tokens[at]], args);
      && End(inv) <= |tokens|
      && Then(calls, Run(commands, tokens, at)) == Then(calls + [inv], Run(commands, tokens, End(inv)))
  {
    var cmd := commands[tokens[at]];
    var given := tokens[at + 1..at + 1 + Min(cmd.arity, |tokens| - (at + 1))];
    ConvertArgsSucceeds(given, 0, cmd.arity);
    var inv := Invocation(at, tokens[at], cmd, args);
    var rest := Run(commands, tokens, End(inv));
    assert Run(commands, tokens, at) == Then([inv], rest);
    assert calls + ([inv] + rest.calls) == (calls + [inv]) + rest.calls;
  }

  /** An unknown token in front of a described scan is skipped as well. */
  lemma SkipOneMore(commands: map<string, Cmd>, tokens: seq<string>, i: nat, calls: seq<Invocation>, failed: bool)
    requires i < |tokens| && tokens[i] !in commands
    requires Describes(commands, tokens, i + 1, calls, failed)
    ensures Describes(commands, tokens, i, calls, failed)
  {
    if |calls| == 0 && failed {
      var p: nat :| Skipped(commands, tokens, i + 1, p) && p < |tokens|
                   && tokens[p] in commands && p + 1 + commands[tokens[p]].arity > |tokens|;
      assert Skipped(commands, tokens, i, p);
    }
  }

  /** What Run computes is a scan as Describes has it. */
  lemma {:induction false} RunDescribed(commands: map<string, Cmd>, tokens: seq<string>, i: nat)
    requires i <= |tokens|
    ensures var o := Run(commands, tokens, i); Describes(commands, tokens, i, o.calls, o.failed)
    decreases |tokens| - i
  {
    var o := Run(commands, tokens, i);
    if i == |tokens| {
    } else if tokens[i] !in commands {
      RunDescribed(commands, tokens, i + 1);
      SkipOneMore(commands, tokens, i, o.calls, o.failed);
    } else {
      var cmd := commands[tokens[i]];
      var given := tokens[i + 1..i + 1 + Min(cmd.arity, |tokens| - (i + 1))];
      ConvertArgsSucceeds(given, 0, cmd.arity);
      if ConvertArgs(given, 0, cmd.arity).Err? {
        assert Skipped(commands, tokens, i, i);
      } else {
        var inv := Invocation(i, tokens[i], cmd, ConvertArgs(given, 0, cmd.arity).value);
        RunDescribed(commands, tokens, End(inv));
        assert o.calls == [inv] + Run(commands, tokens, End(inv)).calls;
        assert o.calls[1..] == Run(commands, tokens, End(inv)).calls;
        assert Skipped(commands, tokens, i, i);
      }
    }
  }

  /** A scan as Describes has it is the one Run computes: the description is complete. */
  lemma {:induction false} DescribedIsRun(commands: map<string, Cmd>, tokens: seq<string>, i: nat, calls: seq<Invocation>, failed: bool)
    requires i <= |tokens| && Describes(commands, tokens, i, calls, failed)
    ensures Run(commands, tokens, i) == Outcome(calls, failed)
    decreases |tokens| - i
  {
    if i == |tokens| {
      assert |calls| == 0;
      assert !failed;
    } else if tokens[i] !in commands {
      SkippedDescribes(commands, tokens, i, calls, failed);
      DescribedIsRun(commands, tokens, i + 1, calls, failed);
    } else if |calls| > 0 {
      var inv := calls[0];
      CallDescribes(commands, tokens, i, calls, failed);
      DescribedIsRun(commands, tokens, End(inv), calls[1..], failed);
      CallStep(commands, tokens, [], i, inv.args);
      assert calls == [inv] + calls[1..];
    } else {
      FailureDescribes(commands, tokens, i, failed);
    }
  }

  /** A described scan from an unknown token is a described scan from the next token. */
  lemma SkippedDescribes(commands: map<string, Cmd>, tokens: seq<string>, i: nat, calls: seq<Invocation>, failed: bool)
    requires i < |tokens| && tokens[i] !in commands && Describes(commands, tokens, i, calls, failed)
    ensures Describes(commands, tokens, i + 1, calls, failed)
  {
    if |calls| > 0 {
      assert calls[0].at != i;
      assert Skipped(commands, tokens, i + 1, calls[0].at);
    } else if failed {
      var p: nat :| Skipped(commands, tokens, i, p) && p < |tokens|
                   && tokens[p] in commands && p + 1 + commands[tokens[p]].arity > |tokens|;
      assert p != i && Skipped(commands, tokens, i + 1, p);
    }
  }

  /** A described scan from a known token starts with that token's call, whose arguments convert. */
  lemma CallDescribes(commands: map<string, Cmd>, tokens: seq<string>, i: nat, calls: seq<Invocation>, failed: bool)
    requires i < |tokens| && tokens[i] in commands && |calls| > 0
    requires Describes(commands, tokens, i, calls, failed)
    ensures var cmd := commands[tokens[i]];
      && calls[0] == Invocation(i, tokens[i], cmd, calls[0].args)
      && ConvertArgs(tokens[i + 1..i + 1 + Min(cmd.arity, |tokens| - (i + 1))], 0, cmd.arity) == Ok(calls[0].args)
      && End(calls[0]) <= |tokens|
      && Describes(commands, tokens, End(calls[0]), calls[1..], failed)
  {
    var cmd := commands[tokens[i]];
    var given := tokens[i + 1..i + 1 + Min(cmd.arity, |tokens| - (i + 1))];
    ConvertArgsSucceeds(given, 0, cmd.arity);
    var inv := calls[0];
    assert inv.at == i && inv.cmd == cmd && i + 1 + cmd.arity <= |tokens|;
    assert given == inv.args && given[0..cmd.arity] == given;
  }

  /** A described scan that makes no call from a known token fails on that token's arguments. */
  lemma FailureDescribes(commands: map<string, Cmd>, tokens: seq<string>, i: nat, failed: bool)
    requires i < |tokens| && tokens[i] in commands
    requires Describes(commands, tokens, i, [], failed)
    ensures Run(commands, tokens, i) == Outcome([], failed)
  {
    var cmd := commands[tokens[i]];
    var given := tokens[i + 1..i + 1 + Min(cmd.arity, |tokens| - (i + 1))];
    ConvertArgsSucceeds(given, 0, cmd.arity);
    assert failed;
    var p: nat :| Skipped(commands, tokens, i, p) && p < |tokens|
                 && tokens[p] in commands && p + 1 + commands[tokens[p]].arity > |tokens|;
    assert p == i;
    assert ConvertArgs(given, 0, cmd.arity).Err?;
  }

  class CommandLineParser {
    /** m_commands */
    var commands: map<string, Cmd>

    constructor ()
      ensures commands == map[]
    {
      commands := map[];
    }

    /** addCommand: emplace, which keeps the command already registered under the name. */
    method AddCommand(name: string, cmd: Cmd)
      modifies this
      ensures name in old(commands) ==> commands == old(commands)
      ensures name !in old(commands) ==> commands == old(commands)[name := cmd]
    {
      if name !in commands {
        commands := commands[name := cmd];
      }
    }

    /**
     * parse(begin, end), or operator()(argc, argv) with the tokens argv[0]
     * .. argv[argc - 1]: the calls are made in token order, and a command
     * left short of arguments throws out of parse.
     */
    method Parse(tokens: seq<string>) returns (o: Outcome)
      ensures o == Run(commands, tokens, 0) && Describes(commands, tokens, 0, o.calls, o.failed)
    {
      o := ParseTokens(commands, tokens);
      RunDescribed(commands, tokens, 0);
    }
  }

  /** parse's loop over the tokens, with the registered commands given. */
  method ParseTokens(commands: map<string, Cmd>, tokens: seq<string>) returns (o: Outcome)
    ensures o == Run(commands, tokens, 0)
  {
    var calls: seq<Invocation> := [];
    var it := 0;
    while it < |tokens|
      invariant it <= |tokens|
      invariant Run(commands, tokens, 0) == Then(calls, Run(commands, tokens, it))
      decreases |tokens| - it
    {
      var name := tokens[it];
      if name !in commands {
        it := it + 1;
      } else {
        var cmd := commands[name];
        var at := it;
        var given;
        given, it := GetCmdArgs(cmd, tokens, it + 1);
        var converted := ConvertArgs(given, 0, cmd.arity);
        if converted.Err? {
          return Outcome(calls, true);
        }
        ConvertArgsSucceeds(given, 0, cmd.arity);
        CallStep(commands, tokens, calls, at, converted.value);
        calls := calls + [Invocation(at, name, cmd, converted.value)];
      }
    }
    return Outcome(calls, false);
  }

  /** A token stream naming no command makes no call and does not fail. */
  lemma NoCommandsNoCalls(commands: map<string, Cmd>, tokens: seq<string>)
    requires forall q :: 0 <= q < |tokens| ==> tokens[q] !in commands
    ensures Run(commands, tokens, 0) == Outcome([], false)
  {
    var o := Run(commands, tokens, 0);
    RunDescribed(commands, tokens, 0);
    assert |o.calls| == 0;
    assert !o.failed;
  }

  /** A zero-arity command consumes no following token and always runs. */
  lemma ZeroArityTakesNothing(commands: map<string, Cmd>, tokens: seq<string>, i: nat)
    requires i < |tokens| && tokens[i] in commands && commands[tokens[i]].arity == 0
    ensures Run(commands, tokens, i)
         == Then([Invocation(i, tokens[i], commands[tokens[i]], [])], Run(commands, tokens, i + 1))
  {
  }

  /** A known command with fewer tokens left than its arity ends the parse with out_of_range. */
  lemma ShortCommandFails(commands: map<string, Cmd>, tokens: seq<string>, i: nat)
    requires i < |tokens| && tokens[i] in commands && i + 1 + commands[tokens[i]].arity > |tokens|
    ensures Run(commands, tokens, i) == Outcome([], true)
  {
    var cmd := commands[tokens[i]];
    var given := tokens[i + 1..i + 1 + Min(cmd.arity, |tokens| - (i + 1))];
    ConvertArgsSucceeds(given, 0, cmd.arity);
  }
}
