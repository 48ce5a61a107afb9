/**
 * The dispatch of the older entry point: two built-ins constructed from the
 * root alone, no root-command branch, no validation before the listing, and
 * only the built-ins-versus-discovered check before a discovered command
 * is resolved. Its sub-command line glues the script and the arguments
 * together without a space (`ConcatenatedCommandLine`); `InvokeCorrected`
 * is the same dispatch with the spaced `RepoKit.CommandLine` of the current
 * entry point.
 */
module DevKit {
  import opened Wrappers
  import opened Strings
  import opened Types
  import InternalRegistry
  import opened CommandValidations
  import opened RepoKit

  /** `internal_commands`: `register-command` and `locate-command`, keyed by name, without a configuration. */
  function InternalCommands(root: string): (m: map<string, Internal>)
    ensures m.Keys == {"register-command", "locate-command"}
  {
    var items := [Internal(CommandRegistration, root, None), Internal(CommandLocating, root, None)];
    assert NameOf(items[0]) == "register-command" && NameOf(items[1]) == "locate-command";
    InternalRegistry.KeyedByName(items)
  }

  /** The older registry holds two built-ins, each under its own name, built from the root. */
  lemma InternalCommandsContents(root: string)
    ensures |InternalCommands(root)| == 2
    ensures forall k :: k in InternalCommands(root) ==>
      var b := InternalCommands(root)[k];
      NameOf(b) == k && b.root == root && b.configuration == None
      && (b.kind == CommandRegistration || b.kind == CommandLocating)
  {
    var items := [Internal(CommandRegistration, root, None), Internal(CommandLocating, root, None)];
    assert NameOf(items[0]) == "register-command" && NameOf(items[1]) == "locate-command";
    assert |{"register-command", "locate-command"}| == 2;
  }

  /** The sub-command line as written in the older entry point: `format!("{}{}", script, args.join(" "))`. */
  function ConcatenatedCommandLine(script: string, args: seq<string>): (line: string)
    ensures StartsWith(line, script)
    ensures |line| + 1 == |CommandLine(script, args)|
  {
    script + Join(args, " ")
  }

  /**
   * As written, a single argument is fused onto the script's last word:
   * splitting at spaces yields no more words than the script alone has.
   */
  lemma ConcatenationFusesArgument(script: string, arg: string)
    requires ' ' !in arg
    ensures |Split(ConcatenatedCommandLine(script, [arg]), ' ')| == |Split(script, ' ')|
    ensures Split(ConcatenatedCommandLine(script, [arg]), ' ') != Split(script, ' ') + [arg]
  {
    assert Join([arg], " ") == arg;
    SplitAppendCount(script, arg, ' ');
  }

  /**
   * A two-word script with one argument, none of them holding a space: as
   * written the line has two words, the last one fused with the argument;
   * with the spaced line it has the three words.
   */
  lemma TwoWordScriptWithArgument(first: string, second: string, arg: string)
    requires ' ' !in first && ' ' !in second && ' ' !in arg
    ensures ConcatenatedCommandLine(first + " " + second, [arg]) == first + " " + second + arg
    ensures |Split(ConcatenatedCommandLine(first + " " + second, [arg]), ' ')| == 2
    ensures Split(CommandLine(first + " " + second, [arg]), ' ') == [first, second, arg]
  {
    var script := first + " " + second;
    assert script == first + [' '] + second;
    SplitTwo(first, second, ' ');
    ConcatenationFusesArgument(script, arg);
    CommandLineWords(script, [arg]);
  }

  /** `yarn install` with the argument `--frozen-lockfile` runs "yarn install--frozen-lockfile" as written. */
  lemma FrozenLockfileAsWritten()
    ensures ConcatenatedCommandLine("yarn install", ["--frozen-lockfile"]) == "yarn install--frozen-lockfile"
  {
    assert Join(["--frozen-lockfile"], " ") == "--frozen-lockfile";
  }

  /** That line has two words, the second fusing `install` with the argument. */
  lemma FrozenLockfileFused()
    ensures |Split(ConcatenatedCommandLine("yarn install", ["--frozen-lockfile"]), ' ')| == 2
  {
    var first, second, arg := "yarn", "install", "--frozen-lockfile";
    assert ' ' !in first && ' ' !in second && ' ' !in arg;
    TwoWordScriptWithArgument(first, second, arg);
    assert first + " " + second == "yarn install";
  }

  /** The spaced line for the same script and argument has the three intended words. */
  lemma FrozenLockfileSpaced()
    ensures Split(CommandLine("yarn install", ["--frozen-lockfile"]), ' ') == ["yarn", "install", "--frozen-lockfile"]
  {
    var first, second, arg := "yarn", "install", "--frozen-lockfile";
    assert ' ' !in first && ' ' !in second && ' ' !in arg;
    TwoWordScriptWithArgument(first, second, arg);
    assert first + " " + second == "yarn install";
  }

  /** How a sub-command's script is joined to its arguments: as the older entry point writes it, or with a space. */
  datatype LineStyle = Fused | Spaced

  /** The sub-command line in the given style. */
  function SubCommandLine(style: LineStyle, script: string, args: seq<string>): string
  {
    match style
    case Fused => ConcatenatedCommandLine(script, args)
    case Spaced => CommandLine(script, args)
  }

  /**
   * The older `invoke` with its `parse`, for a given line style: the listing
   * is shown without any check, built-ins run before anything else, and
   * every other name is looked up among the discovered commands once none
   * of them is named like a built-in (the check the older code calls
   * `validate`).
   */
  function Resolve(style: LineStyle, argv: seq<string>, root: string, discovered: map<string, ExternalCommand>,
                   externalOrder: seq<string>): Outcome
    requires Enumerates(externalOrder, discovered.Keys)
  {
    var internals := InternalCommands(root);
    match Parse(argv)
    case None => ShowCatalogue(Catalogue(internals, discovered))
    case Some(Invocation(command, args)) =>
      if command in internals then RunBuiltin(internals[command], args, None)
      else
        match InternalsVsExternals(internals, discovered, externalOrder)
        case Some(c) => Collided(c)
        case None =>
          if command !in discovered then CommandNotFound(command, Catalogue(internals, discovered))
          else
            var found := discovered[command];
            if args == [] then ListSubCommands(found)
            else if args[0] !in found.commands then SubCommandNotFound(found, args[0])
            else Execute(SubCommandLine(style, found.commands[args[0]].command, args[1..]), None)
  }

  /** The older `invoke` as written: the sub-command line is fused. */
  function Invoke(argv: seq<string>, root: string, discovered: map<string, ExternalCommand>,
                  externalOrder: seq<string>): (r: Outcome)
    requires Enumerates(externalOrder, discovered.Keys)
    ensures r.Execute? ==> r.workingDirectory == None
    ensures r.RunBuiltin? ==> r.siblings == None && r.builtin.root == root
  {
    Resolve(Fused, argv, root, discovered, externalOrder)
  }

  /** The older `invoke` with the separating space the current entry point writes. */
  function InvokeCorrected(argv: seq<string>, root: string, discovered: map<string, ExternalCommand>,
                           externalOrder: seq<string>): (r: Outcome)
    requires Enumerates(externalOrder, discovered.Keys)
    ensures r.Execute? ==> r.workingDirectory == None
  {
    Resolve(Spaced, argv, root, discovered, externalOrder)
  }

  /** Below two tokens the older entry point lists everything, with no collision check. */
  lemma ShortArgvListsUnchecked(argv: seq<string>, root: string, discovered: map<string, ExternalCommand>,
                                externalOrder: seq<string>)
    requires Enumerates(externalOrder, discovered.Keys)
    requires |argv| < 2
    ensures Invoke(argv, root, discovered, externalOrder) == ShowCatalogue(Catalogue(InternalCommands(root), discovered))
  {
  }

  /**
   * A built-in name runs the built-in, whatever was discovered; any other
   * name never runs in a chosen directory, since the older entry point has
   * no root-command branch and runs sub-commands where it was started.
   */
  lemma BuiltinsFirstNoRootBranch(argv: seq<string>, root: string, discovered: map<string, ExternalCommand>,
                                  externalOrder: seq<string>)
    requires Enumerates(externalOrder, discovered.Keys)
    requires |argv| >= 2
    ensures argv[1] in {"register-command", "locate-command"} ==>
      Invoke(argv, root, discovered, externalOrder) == RunBuiltin(InternalCommands(root)[argv[1]], argv[2..], None)
    ensures argv[1] !in {"register-command", "locate-command"} ==>
      var r := Invoke(argv, root, discovered, externalOrder);
      && (r.Collided? || r.CommandNotFound? || r.ListSubCommands? || r.SubCommandNotFound? || r.Execute?)
      && (r.Execute? ==> r.workingDirectory == None)
      && (!r.Collided? <==> InternalCommands(root).Keys !! discovered.Keys)
  {
    InternalCommandsContents(root);
    if argv[1] !in InternalCommands(root) {
      OtherNamesNeverChooseDirectory(argv, root, discovered, externalOrder);
    }
  }

  /** A name that is no built-in ends in a collision, a lookup outcome, or a run where the tool was started. */
  lemma OtherNamesNeverChooseDirectory(argv: seq<string>, root: string, discovered: map<string, ExternalCommand>,
                                       externalOrder: seq<string>)
    requires Enumerates(externalOrder, discovered.Keys)
    requires |argv| >= 2 && argv[1] !in InternalCommands(root)
    ensures var r := Invoke(argv, root, discovered, externalOrder);
      && (r.Collided? || r.CommandNotFound? || r.ListSubCommands? || r.SubCommandNotFound? || r.Execute?)
      && (r.Execute? ==> r.workingDirectory == None)
      && (!r.Collided? <==> InternalCommands(root).Keys !! discovered.Keys)
  {
  }

  /**
   * Once no discovered command is named like a built-in, a discovered name
   * with no arguments lists its sub-commands, a known sub-command runs its
   * script glued to the remaining arguments (spaced in the corrected
   * dispatch), an unknown one is reported, and an unknown name shows the
   * listing.
   */
  lemma DiscoveredDispatch(argv: seq<string>, root: string, discovered: map<string, ExternalCommand>,
                           externalOrder: seq<string>)
    requires Enumerates(externalOrder, discovered.Keys)
    requires InternalCommands(root).Keys !! discovered.Keys
    requires |argv| >= 2 && argv[1] !in InternalCommands(root)
    ensures var r := Invoke(argv, root, discovered, externalOrder);
      var name := argv[1];
      && (name !in discovered ==> r == CommandNotFound(name, Catalogue(InternalCommands(root), discovered)))
      && (name in discovered && |argv| == 2 ==> r == ListSubCommands(discovered[name]))
      && (name in discovered && |argv| > 2 && argv[2] !in discovered[name].commands ==>
            r == SubCommandNotFound(discovered[name], argv[2]))
      && (name in discovered && |argv| > 2 && argv[2] in discovered[name].commands ==>
            r == Execute(ConcatenatedCommandLine(discovered[name].commands[argv[2]].command, argv[3..]), None))
    ensures argv[1] in discovered && |argv| > 2 && argv[2] in discovered[argv[1]].commands ==>
      InvokeCorrected(argv, root, discovered, externalOrder)
        == Execute(CommandLine(discovered[argv[1]].commands[argv[2]].command, argv[3..]), None)
  {
    assert argv[2..] == [] <==> |argv| == 2;
    if |argv| > 2 {
      assert argv[2..][0] == argv[2] && argv[2..][1..] == argv[3..];
    }
  }

  /** The correction changes nothing but the line of a sub-command that runs. */
  lemma CorrectionOnlyChangesTheLine(argv: seq<string>, root: string, discovered: map<string, ExternalCommand>,
                                     externalOrder: seq<string>)
    requires Enumerates(externalOrder, discovered.Keys)
    ensures var r, c := Invoke(argv, root, discovered, externalOrder), InvokeCorrected(argv, root, discovered, externalOrder);
      r.Execute? == c.Execute? && (!r.Execute? ==> r == c) && (r.Execute? ==> r.workingDirectory == c.workingDirectory)
  {
  }

  /**
   * `devkit deploy staging --frozen-lockfile`, with `staging` scripted as
   * "yarn install": the older entry point runs "yarn install--frozen-lockfile";
   * the corrected one runs "yarn install --frozen-lockfile".
   */
  lemma DeployFrozenLockfile(argv: seq<string>, root: string, deploy: ExternalCommand,
                              discovered: map<string, ExternalCommand>, externalOrder: seq<string>)
    requires argv == ["devkit", "deploy", "staging", "--frozen-lockfile"]
    requires discovered == map["deploy" := deploy] && externalOrder == ["deploy"]
    requires "staging" in deploy.commands && deploy.commands["staging"].command == "yarn install"
    ensures Invoke(argv, root, discovered, externalOrder) == Execute("yarn install--frozen-lockfile", None)
    ensures InvokeCorrected(argv, root, discovered, externalOrder) == Execute("yarn install --frozen-lockfile", None)
  {
    var args := ["--frozen-lockfile"];
    assert argv[1] == "deploy" && argv[2] == "staging" && argv[3..] == args;
    DeployIsNoBuiltin(root);
    SubCommandRuns(argv, root, discovered, externalOrder);
    FrozenLockfileAsWritten();
    FrozenLockfileSpacedLine();
  }

  /** With the space, the same script and argument make "yarn install --frozen-lockfile". */
  lemma FrozenLockfileSpacedLine()
    ensures CommandLine("yarn install", ["--frozen-lockfile"]) == "yarn install --frozen-lockfile"
  {
    assert Join(["--frozen-lockfile"], " ") == "--frozen-lockfile";
  }

  /** `deploy` is not a built-in of the older entry point. */
  lemma DeployIsNoBuiltin(root: string)
    ensures "deploy" !in InternalCommands(root)
  {
    var d := "deploy";
    assert |d| == 6;
  }

  /** A known sub-command of a discovered command runs its fused line as written and its spaced line once corrected. */
  lemma SubCommandRuns(argv: seq<string>, root: string, discovered: map<string, ExternalCommand>, externalOrder: seq<string>)
    requires Enumerates(externalOrder, discovered.Keys)
    requires forall k | k in discovered :: k !in InternalCommands(root)
    requires |argv| > 2 && argv[1] in discovered && argv[2] in discovered[argv[1]].commands
    ensures Invoke(argv, root, discovered, externalOrder)
            == Execute(ConcatenatedCommandLine(discovered[argv[1]].commands[argv[2]].command, argv[3..]), None)
    ensures InvokeCorrected(argv, root, discovered, externalOrder)
            == Execute(CommandLine(discovered[argv[1]].commands[argv[2]].command, argv[3..]), None)
  {
    DiscoveredDispatch(argv, root, discovered, externalOrder);
  }
}
