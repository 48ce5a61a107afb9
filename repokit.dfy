/**
 * The dispatch of one invocation of the current entry point: the argument
 * vector is split into a command name and its arguments, and the name is
 * resolved against the built-ins, then the root commands of the
 * configuration, then the discovered commands (after every collision check),
 * ending in exactly one terminal outcome. The discovered commands and the
 * iteration orders of the maps are inputs; running a command line is an
 * outcome, not an effect.
 */
module RepoKit {
  import opened Wrappers
  import opened Strings
  import opened Types
  import InternalRegistry
  import opened CommandValidations

  /** A command name and the arguments after it. */
  datatype Invocation = Invocation(command: string, args: seq<string>)

  /** What the full listing shows: the built-ins and the discovered commands. */
  datatype Catalogue = Catalogue(internals: map<string, Internal>, externals: map<string, ExternalCommand>)

  /** The one terminal outcome of an invocation. */
  datatype Outcome =
    | ShowCatalogue(catalogue: Catalogue)                 // full listing, exit 0
    | RunBuiltin(builtin: Internal, args: seq<string>, siblings: Option<map<string, Internal>>)
    | Execute(commandLine: string, workingDirectory: Option<string>) // None: the inherited directory
    | ListSubCommands(command: ExternalCommand)
    | SubCommandNotFound(command: ExternalCommand, subCommand: string)
    | CommandNotFound(name: string, catalogue: Catalogue)
    | Collided(collision: Collision)                      // reported, exit 0
    | NoParentDirectory(location: string)                 // `expect` on a missing parent

  /** `parse`: no command name below two tokens; otherwise the second token and the rest. */
  function Parse(argv: seq<string>): (r: Option<Invocation>)
    ensures r.None? <==> |argv| < 2
    ensures r.Some? ==> [argv[0], r.value.command] + r.value.args == argv
  {
    if |argv| < 2 then None
    else
      assert [argv[0], argv[1]] + argv[2..] == argv;
      Some(Invocation(argv[1], argv[2..]))
  }

  /** `format!("{} {}", script, args.join(" "))`. */
  function CommandLine(script: string, args: seq<string>): (line: string)
    ensures |line| > |script| && StartsWith(line, script) && line[|script|] == ' '
  {
    script + " " + Join(args, " ")
  }

  /**
   * Split at spaces, the command line is the script's words followed by the
   * arguments (one empty word when there are none), so long as no argument
   * holds a space.
   */
  lemma CommandLineWords(script: string, args: seq<string>)
    requires forall i :: 0 <= i < |args| ==> ' ' !in args[i]
    ensures Split(CommandLine(script, args), ' ') == Split(script, ' ') + (if args == [] then [""] else args)
  {
    assert CommandLine(script, args) == script + [' '] + Join(args, [' ']);
    SplitConcat(script, Join(args, " "), ' ');
    if args != [] {
      SplitJoin(args, ' ');
    }
  }

  /**
   * `Path::parent` of a '/'-separated path: everything before the last '/',
   * "/" for a file directly under the filesystem root, "" for a bare name,
   * and nothing for the empty path or "/" itself.
   */
  function Parent(location: string): (r: Option<string>)
    ensures r.None? <==> location == "" || location == "/"
    ensures r.Some? ==> |r.value| < |location| && StartsWith(location, r.value)
  {
    match LastIndexOf(location, '/')
    case None => if location == "" then None else Some("")
    case Some(i) =>
      if i == 0 then (if |location| == 1 then None else Some("/"))
      else Some(location[..i])
  }

  /** The parent of a file declared in a directory is that directory. */
  lemma ParentOfDeclaration(directory: string, file: string)
    requires directory != [] && file != [] && '/' !in file
    ensures Parent(directory + "/" + file) == Some(directory)
  {
    var location := directory + "/" + file;
    var n := |directory|;
    assert location[n] == '/';
    assert location[n + 1..] == file;
    assert location[..n] == directory;
  }

  /**
   * `invoke`, with the `parse` and `collect_and_validate` it calls. Every
   * run validates the built-ins against the root commands first; the
   * discovered commands are validated (against the root commands, then the
   * built-ins) only once the name is neither a built-in nor a root command.
   */
  function Invoke(argv: seq<string>, root: string, config: Config, discovered: map<string, ExternalCommand>,
                  internalOrder: seq<string>, externalOrder: seq<string>): (r: Outcome)
    requires Enumerates(internalOrder, InternalRegistry.BuiltinNames)
    requires Enumerates(externalOrder, discovered.Keys)
    ensures r.Execute? ==> r.workingDirectory.Some?
  {
    match CollectAndValidateInternals(root, config, internalOrder)
    case Failure(c) => Collided(c)
    case Success(internals) =>
      match Parse(argv)
      case None =>
        (match ValidatedExternals(config, internals, discovered, externalOrder)
         case Failure(c) => Collided(c)
         case Success(externals) => ShowCatalogue(Catalogue(internals, externals)))
      case Some(Invocation(command, args)) =>
        if command in internals then RunBuiltin(internals[command], args, Some(internals))
        else if command in config.commands then
          Execute(CommandLine(config.commands[command].command, args), Some(root))
        else
          match ValidatedExternals(config, internals, discovered, externalOrder)
          case Failure(c) => Collided(c)
          case Success(externals) =>
            if command !in externals then CommandNotFound(command, Catalogue(internals, externals))
            else Dispatch(externals[command], args)
  }

  /** `collect_and_validate_externals` followed by the built-ins-versus-discovered check. */
  function ValidatedExternals(config: Config, internals: map<string, Internal>,
                              discovered: map<string, ExternalCommand>, order: seq<string>)
    : (r: Result<map<string, ExternalCommand>, Collision>)
    requires Enumerates(order, discovered.Keys)
    ensures r.Success? <==> config.commands.Keys !! discovered.Keys && internals.Keys !! discovered.Keys
    ensures r.Success? ==> r.value == discovered
  {
    match CollectAndValidateExternals(config, discovered, order)
    case Failure(c) => Failure(c)
    case Success(externals) =>
      match InternalsVsExternals(internals, externals, order)
      case Some(c) => Failure(c)
      case None => Success(externals)
  }

  /** The sub-command step of `invoke` for a discovered command. */
  function Dispatch(command: ExternalCommand, args: seq<string>): (r: Outcome)
    ensures r.ListSubCommands? <==> args == []
    ensures r.Execute? ==> args[0] in command.commands && Parent(command.location).Some?
    ensures r.Execute? ==> r.workingDirectory == Parent(command.location)
  {
    if args == [] then ListSubCommands(command)
    else if args[0] !in command.commands then SubCommandNotFound(command, args[0])
    else
      match Parent(command.location)
      case None => NoParentDirectory(command.location)
      case Some(directory) =>
        Execute(CommandLine(command.commands[args[0]].command, args[1..]), Some(directory))
  }

  /** No name is defined by two of the three sources: every collision check passes. */
  predicate Consistent(config: Config, discovered: map<string, ExternalCommand>)
  {
    && InternalRegistry.BuiltinNames !! config.commands.Keys
    && config.commands.Keys !! discovered.Keys
    && InternalRegistry.BuiltinNames !! discovered.Keys
  }

  /**
   * Below two tokens nothing is dispatched: the full listing of the
   * registry and the discovered commands is shown exactly when every check
   * passes, and otherwise a collision is reported.
   */
  lemma ShortArgvShowsCatalogue(argv: seq<string>, root: string, config: Config,
                                discovered: map<string, ExternalCommand>,
                                internalOrder: seq<string>, externalOrder: seq<string>)
    requires Enumerates(internalOrder, InternalRegistry.BuiltinNames)
    requires Enumerates(externalOrder, discovered.Keys)
    requires |argv| < 2
    ensures var r := Invoke(argv, root, config, discovered, internalOrder, externalOrder);
      && (r.ShowCatalogue? || r.Collided?)
      && (r.ShowCatalogue? <==> Consistent(config, discovered))
      && (r.ShowCatalogue? ==> r.catalogue == Catalogue(InternalRegistry.GetAll(root, config), discovered))
  {
  }

  /**
   * A name shared by a built-in and a root command is always rejected, with
   * the configuration file as its location, whatever the arguments.
   */
  lemma BuiltinRootCollisionRejected(argv: seq<string>, root: string, config: Config,
                                     discovered: map<string, ExternalCommand>,
                                     internalOrder: seq<string>, externalOrder: seq<string>)
    requires Enumerates(internalOrder, InternalRegistry.BuiltinNames)
    requires Enumerates(externalOrder, discovered.Keys)
    requires !(InternalRegistry.BuiltinNames !! config.commands.Keys)
    ensures var r := Invoke(argv, root, config, discovered, internalOrder, externalOrder);
      && r.Collided?
      && r.collision.name in InternalRegistry.BuiltinNames
      && r.collision.name in config.commands
      && r.collision.location == ConfigurationFile
  {
  }

  /** Once the built-ins and root commands are disjoint, a built-in name runs that built-in. */
  lemma BuiltinsMatchFirst(argv: seq<string>, root: string, config: Config,
                           discovered: map<string, ExternalCommand>,
                           internalOrder: seq<string>, externalOrder: seq<string>)
    requires Enumerates(internalOrder, InternalRegistry.BuiltinNames)
    requires Enumerates(externalOrder, discovered.Keys)
    requires InternalRegistry.BuiltinNames !! config.commands.Keys
    requires |argv| >= 2 && argv[1] in InternalRegistry.BuiltinNames
    ensures var internals := InternalRegistry.GetAll(root, config);
      Invoke(argv, root, config, discovered, internalOrder, externalOrder)
        == RunBuiltin(internals[argv[1]], argv[2..], Some(internals))
  {
  }

  /**
   * A root command runs its script followed by the arguments in the root
   * directory, and discovery is never consulted: the outcome is the same
   * for any discovered commands, colliding or not.
   */
  lemma RootCommandRunsInRoot(argv: seq<string>, root: string, config: Config,
                              discovered: map<string, ExternalCommand>,
                              internalOrder: seq<string>, externalOrder: seq<string>)
    requires Enumerates(internalOrder, InternalRegistry.BuiltinNames)
    requires Enumerates(externalOrder, discovered.Keys)
    requires InternalRegistry.BuiltinNames !! config.commands.Keys
    requires |argv| >= 2 && argv[1] in config.commands
    ensures Invoke(argv, root, config, discovered, internalOrder, externalOrder)
      == Execute(CommandLine(config.commands[argv[1]].command, argv[2..]), Some(root))
  {
  }

  /**
   * Every outcome that involves the discovered commands (the listing, a
   * discovered command's sub-commands, a not-found) happens only after all
   * three checks have passed.
   */
  lemma DiscoveredOutcomesAreValidated(argv: seq<string>, root: string, config: Config,
                                       discovered: map<string, ExternalCommand>,
                                       internalOrder: seq<string>, externalOrder: seq<string>)
    requires Enumerates(internalOrder, InternalRegistry.BuiltinNames)
    requires Enumerates(externalOrder, discovered.Keys)
    ensures var r := Invoke(argv, root, config, discovered, internalOrder, externalOrder);
      (r.ShowCatalogue? || r.ListSubCommands? || r.SubCommandNotFound? || r.CommandNotFound? || r.NoParentDirectory?)
        ==> Consistent(config, discovered)
  {
    var internals := InternalRegistry.GetAll(root, config);
    var r := Invoke(argv, root, config, discovered, internalOrder, externalOrder);
    var checked := CollectAndValidateInternals(root, config, internalOrder);
    if checked.Failure? {
      assert r == Collided(checked.error);
    } else {
      assert checked.value == internals;
      var externals := ValidatedExternals(config, internals, discovered, externalOrder);
      if externals.Failure? {
        if |argv| < 2 {
          assert r == Collided(externals.error);
        } else if argv[1] in internals {
          assert r.RunBuiltin?;
        } else if argv[1] in config.commands {
          assert r.Execute?;
        } else {
          assert r == Collided(externals.error);
        }
      }
    }
  }

  /**
   * With every check passing, a name that is neither a built-in nor a root
   * command resolves among the discovered commands: no arguments list its
   * sub-commands, a known sub-command runs in the directory of the
   * declaring file, an unknown one is reported, and an unknown name shows
   * the listing.
   */
  lemma DiscoveredDispatch(argv: seq<string>, root: string, config: Config,
                           discovered: map<string, ExternalCommand>,
                           internalOrder: seq<string>, externalOrder: seq<string>)
    requires Enumerates(internalOrder, InternalRegistry.BuiltinNames)
    requires Enumerates(externalOrder, discovered.Keys)
    requires Consistent(config, discovered)
    requires |argv| >= 2 && argv[1] !in InternalRegistry.BuiltinNames && argv[1] !in config.commands
    ensures var r := Invoke(argv, root, config, discovered, internalOrder, externalOrder);
      var name := argv[1];
      && (name !in discovered ==>
            r == CommandNotFound(name, Catalogue(InternalRegistry.GetAll(root, config), discovered)))
      && (name in discovered && |argv| == 2 ==> r == ListSubCommands(discovered[name]))
      && (name in discovered && |argv| > 2 && argv[2] !in discovered[name].commands ==>
            r == SubCommandNotFound(discovered[name], argv[2]))
      && (name in discovered && |argv| > 2 && argv[2] in discovered[name].commands ==>
            match Parent(discovered[name].location)
            case None => r == NoParentDirectory(discovered[name].location)
            case Some(directory) =>
              r == Execute(CommandLine(discovered[name].commands[argv[2]].command, argv[3..]), Some(directory)))
  {
    assert argv[2..] == [] <==> |argv| == 2;
    if |argv| > 2 {
      assert argv[2..][0] == argv[2] && argv[2..][1..] == argv[3..];
    }
  }

  /** The configuration of the scenario below: one root command, `test`. */
  function ScenarioConfig(testScript: Command): Config
  {
    Config("project", map["test" := testScript])
  }

  /** Neither `test` nor `deploy` is a built-in name, and they differ. */
  lemma ScenarioConsistent(testScript: Command, deploy: ExternalCommand)
    ensures Consistent(ScenarioConfig(testScript), map["deploy" := deploy])
    ensures "deploy" !in InternalRegistry.BuiltinNames && "test" !in InternalRegistry.BuiltinNames
  {
    var t, d := "test", "deploy";
    assert |t| == 4 && |d| == 6;
    assert forall k | k in InternalRegistry.BuiltinNames :: |k| > 6;
  }

  /**
   * The scenario of a root command `test` and a command `deploy` declared in
   * `pkgA/Commands.ts` with a sub-command `staging`: `deploy staging --flag`
   * runs the staging script with "--flag" in `pkgA`.
   */
  lemma DeployStagingRunsInPackage(root: string, testScript: Command, deploy: ExternalCommand, staging: Command,
                                   internalOrder: seq<string>)
    requires Enumerates(internalOrder, InternalRegistry.BuiltinNames)
    requires root != []
    requires deploy.location == root + "/pkgA/Commands.ts"
    requires deploy.commands == map["staging" := staging]
    ensures Invoke(["repokit", "deploy", "staging", "--flag"], root, ScenarioConfig(testScript),
                   map["deploy" := deploy], internalOrder, ["deploy"])
            == Execute(CommandLine(staging.command, ["--flag"]), Some(root + "/pkgA"))
  {
    ScenarioConsistent(testScript, deploy);
    var argv, directory, file := ["repokit", "deploy", "staging", "--flag"], root + "/pkgA", "Commands.ts";
    assert deploy.location == directory + "/" + file;
    assert '/' !in file;
    assert argv[1] == "deploy" && argv[2] == "staging" && argv[3..] == ["--flag"];
    SubCommandRunsBesideDeclaration(argv, root, ScenarioConfig(testScript), map["deploy" := deploy],
                                    internalOrder, ["deploy"], directory, file);
  }

  /** A discovered command's sub-command runs, with the remaining words, in the directory of its declaration file. */
  lemma SubCommandRunsBesideDeclaration(argv: seq<string>, root: string, config: Config,
                                        discovered: map<string, ExternalCommand>,
                                        internalOrder: seq<string>, externalOrder: seq<string>,
                                        directory: string, file: string)
    requires Enumerates(internalOrder, InternalRegistry.BuiltinNames)
    requires Enumerates(externalOrder, discovered.Keys)
    requires Consistent(config, discovered)
    requires |argv| > 2 && argv[1] !in InternalRegistry.BuiltinNames && argv[1] !in config.commands
    requires argv[1] in discovered && argv[2] in discovered[argv[1]].commands
    requires directory != [] && file != [] && '/' !in file
    requires discovered[argv[1]].location == directory + "/" + file
    ensures Invoke(argv, root, config, discovered, internalOrder, externalOrder)
            == Execute(CommandLine(discovered[argv[1]].commands[argv[2]].command, argv[3..]), Some(directory))
  {
    ParentOfDeclaration(directory, file);
    DiscoveredDispatch(argv, root, config, discovered, internalOrder, externalOrder);
  }

  /** In the same scenario, `test` runs its script, with no arguments, in the root. */
  lemma TestRunsInRoot(root: string, testScript: Command, deploy: ExternalCommand, internalOrder: seq<string>)
    requires Enumerates(internalOrder, InternalRegistry.BuiltinNames)
    ensures Invoke(["repokit", "test"], root, ScenarioConfig(testScript), map["deploy" := deploy],
                   internalOrder, ["deploy"])
            == Execute(CommandLine(testScript.command, []), Some(root))
  {
    ScenarioConsistent(testScript, deploy);
    var argv := ["repokit", "test"];
    assert argv[2..] == [];
    RootCommandRunsInRoot(argv, root, ScenarioConfig(testScript), map["deploy" := deploy], internalOrder, ["deploy"]);
  }

  /** In the same scenario, `deploy` alone lists its sub-commands and runs nothing. */
  lemma DeployAloneLists(root: string, testScript: Command, deploy: ExternalCommand, internalOrder: seq<string>)
    requires Enumerates(internalOrder, InternalRegistry.BuiltinNames)
    ensures Invoke(["repokit", "deploy"], root, ScenarioConfig(testScript), map["deploy" := deploy],
                   internalOrder, ["deploy"])
            == ListSubCommands(deploy)
  {
    ScenarioConsistent(testScript, deploy);
    DiscoveredDispatch(["repokit", "deploy"], root, ScenarioConfig(testScript), map["deploy" := deploy],
                       internalOrder, ["deploy"]);
  }
}
