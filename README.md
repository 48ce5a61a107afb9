# repokit command dispatch, modelled in Dafny

repokit is a command-line tool for monorepos. A project configuration file
declares *root commands* (scripts run from the repository root). Any
TypeScript file in the repository may declare a *registered command*: an
instance of the command class, with a name, an owner tag and named
*sub-commands*, each a script run from the directory of the declaring file.
The tool also ships *built-in* commands (`list-commands`, `locate-command`,
`register-command`, `onboard`, `upgrade-devkit`, and a `list-owners`
implementation).

This project models the core of that tool:

- **Discovery** (`ExternalCommands`, `CommandParser`): walking the repository,
  excluding files by path segment, prefix and suffix, keeping readable `.ts`
  files that contain the command-class constructor, and turning each kept
  file's exported instances into a name-keyed registry.
- **Collision checks** (`CommandValidations`): the three fail-fast checks
  (built-ins against root commands, root commands against registered
  commands, built-ins against registered commands). Each is shown to pass
  exactly when the two name sets are disjoint, whatever order the hash map
  is visited in.
- **Registry** (`InternalRegistry`): the built-ins keyed by their definition
  names.
- **Dispatch** (`RepoKit`, `DevKit`): the current entry point and the older
  entry point. Each resolves `argv` into exactly one terminal outcome: the
  full listing, a built-in run, a command line with its working directory,
  a sub-command listing, a not-found report, or a collision report.
- **Built-ins** (`Help`, `ListCommands`, `LocateCommand`, `ListOwners`): the
  sorted full listing, the scoped listings, locating a command's file, and
  the numbered owner list.

Effects are not modelled as effects. The directory walk is an input sequence
of entries (path, is-a-file, lines, or an error entry). Importing a
TypeScript file is an input function. Running a command line is an
`Outcome` value. The unspecified iteration order of every `HashMap` and
`HashSet` is an explicit `order` parameter, constrained to list each key
once (`Types.Enumerates`). The help listing and the owner listing sort in
place on an `array`, as the source sorts a `Vec`. The loops of
`find_all`, `collect_instances`, `list_all` and the owner listing are
`method`s with loop invariants, proved against the specification
functions.

The dispatchers (`RepoKit.Invoke`, `DevKit.Invoke`) and the built-ins'
`Run` functions take the registered commands as a map parameter,
`discovered`. It stands for the result of the discovery walk,
`ExternalCommands.Discover(root, entries, exportsOf)`, which the source
computes with `find_all` before dispatching. The collision checks and the
lemmas about dispatch hold for every such map, and so for that one too.

## Model

| member | source | states |
|---|---|---|
| CommandParser.NonEmpty | src/CommandParser.ts:7 | `filter(Boolean)`: keeps exactly the non-empty pieces, and keeps a list with none empty unchanged |
| CommandParser.NonEmptyAppend | src/CommandParser.ts:7 | `filter(Boolean)` keeps order and multiplicity: filtering a concatenation concatenates the filtered parts |
| CommandParser.SplitPaths | src/CommandParser.ts:7 | every path taken from the list is non-empty and free of commas |
| CommandParser.InstancesOf | src/CommandParser.ts:11-15 | the commands an import yields are exactly its command-class exports, each stamped with the file's path |
| CommandParser.Collected | src/CommandParser.ts:9-16 | every collected command is located in one of the given paths |
| CommandParser.Parse | src/CommandParser.ts:6-18 | the loop over paths and exports collects exactly `Collected` of the split `--paths` value |
| CommandParser.CollectedAppend | src/CommandParser.ts:9-16 | collecting over two path lists is collecting over each, concatenated in order |
| CommandParser.NoPathsNoCommands | src/CommandParser.ts:20-35 | an absent `--paths` option, or one whose parsing throws, yields no commands |
| CommandParser.JoinedPathsRoundTrip | workspaces/internal_commands/typescript_command.rs:33 | paths joined with "," by the caller are split back into the same list |
| Strings.Split | src/CommandParser.ts:7 | `split` yields at least one piece, and no piece holds the separator |
| Strings.JoinSplit | src/CommandParser.ts:7 | joining the pieces of a split with the separator gives back the string |
| Strings.SplitJoin | workspaces/internal_commands/typescript_command.rs:33 | splitting a join of separator-free pieces gives back the pieces |
| Strings.SplitConcat | workspaces/repokit/repokit.rs:42 | splitting across a separator splits each side independently |
| Strings.RemoveAllAbsent | workspaces/external_commands/external_commands.rs:82 | `replace` changes nothing when the pattern does not occur |
| Strings.RemoveAll | workspaces/external_commands/external_commands.rs:82 | `replace(pat, "")` never lengthens the string; its behaviour is fixed by the `RemoveAll…` lemmas next to it |
| Strings.RemoveAllLeading | workspaces/external_commands/external_commands.rs:82 | `replace` removes a leading occurrence of the pattern |
| Strings.RemoveAllKeepsFrom | workspaces/external_commands/external_commands.rs:82 | a block in which no occurrence of the pattern can start passes through `replace` unchanged |
| Strings.StripPrefix | workspaces/external_commands/external_commands.rs:82 | removes the root prefix exactly when the path starts with it, and otherwise returns the path |
| Strings.LastIndexOf | workspaces/repokit/repokit.rs:58 | finds the last occurrence of a character, and finds none exactly when it is absent |
| Strings.LexLeTotal | workspaces/internal_commands/help.rs:84 | the string order used as a sort key is total |
| Strings.LexLeTransitive | workspaces/internal_commands/help.rs:84 | the string order is transitive |
| Strings.LexLeAntisymmetric | workspaces/internal_commands/help.rs:84 | the string order is antisymmetric |
| Types.KindNamesDistinct | workspaces/internal_commands/internal_registry.rs:26-47 | different built-ins carry different definition names |
| Types.EnumerationSize | workspaces/validations/command_validations.rs:42-100 | an iteration order of a map has one entry per key |
| ExternalCommands.Restrict | workspaces/external_commands/external_commands.rs:111-127 | true exactly when some token is a prefix (forwards) or a suffix (backwards) of the path |
| ExternalCommands.RestrictOrderFree | workspaces/external_commands/external_commands.rs:111-127 | the result does not depend on the order of the tokens |
| ExternalCommands.AnyRestrictedSegment | workspaces/external_commands/external_commands.rs:79-109 | true exactly when some path segment is a restricted name |
| ExternalCommands.ExcludedRelative | workspaces/external_commands/external_commands.rs:83-108 | the three exclusion rules on a relative path; characterised by `BlackListDirsCharacterised` |
| ExternalCommands.BlackListDirsAsWritten | workspaces/external_commands/external_commands.rs:79-109 | `black_list_dirs` as written, on the path with every occurrence of `root + "/"` removed; see `AsWrittenAgrees` and `AsWrittenMissesNestedTarget` |
| ExternalCommands.BlackListDirs | workspaces/external_commands/external_commands.rs:79-109 | `black_list_dirs` with the root prefix stripped once (the intended reading); characterised by `BlackListDirsCharacterised` |
| ExternalCommands.BlackListDirsCharacterised | workspaces/external_commands/external_commands.rs:79-109 | a path under the root is excluded exactly when its relative part starts with a restricted prefix, ends with a restricted suffix, or has a restricted segment |
| ExternalCommands.ExcludedAtAnyDepth | workspaces/external_commands/external_commands.rs:79-109 | a restricted segment at any depth excludes the path |
| ExternalCommands.AsWrittenAgrees | workspaces/external_commands/external_commands.rs:79-109 | the as-written check and the corrected one agree when the relative path does not repeat the root prefix |
| ExternalCommands.RemoveAllNestedRoot | workspaces/external_commands/external_commands.rs:82 | `replace` of "/r/" in "/r/a/target/r/b.ts" also deletes the nested occurrence, giving "a/targetb.ts" |
| ExternalCommands.TwoPlainSegmentsNotExcluded | workspaces/external_commands/external_commands.rs:79-109 | helper lemma for the nested-target example: a short two-segment path with no restricted prefix, suffix or segment is not excluded |
| ExternalCommands.NestedTargetNotExcluded | workspaces/external_commands/external_commands.rs:79-109 | "a/targetb.ts" is not excluded |
| ExternalCommands.RestrictedSecondSegment | workspaces/external_commands/external_commands.rs:79-109 | a restricted second segment excludes the path under the corrected check |
| ExternalCommands.NestedTargetExcluded | workspaces/external_commands/external_commands.rs:79-109 | the corrected check excludes "/r/a/target/r/b.ts" under root "/r" |
| ExternalCommands.AsWrittenMissesNestedTarget | workspaces/external_commands/external_commands.rs:82 | the as-written check keeps a file inside a `target` directory that the corrected check excludes |
| ExternalCommands.MarkerLine | workspaces/external_commands/external_commands.rs:55-65 | finds the first line containing the constructor marker, and finds none exactly when no line contains it |
| ExternalCommands.Read | workspaces/external_commands/external_commands.rs:55-65 | a file is probed positive exactly when some line contains the constructor marker |
| ExternalCommands.Allowed | workspaces/external_commands/external_commands.rs:67-77 | not a walk error, and not excluded by `black_list_dirs` as written |
| ExternalCommands.AllowedCorrected | workspaces/external_commands/external_commands.rs:67-77 | `allowed` with the intended, strip-once exclusion test |
| ExternalCommands.FileName | workspaces/external_commands/external_commands.rs:34 | the file name of a path holds no '/' |
| ExternalCommands.Extension | workspaces/external_commands/external_commands.rs:34 | an extension holds no '.' and no '/'; `ExtensionIsTs` says when it is "ts" |
| ExternalCommands.FileNameAfterSlash | workspaces/external_commands/external_commands.rs:34 | the file name of `directory/name` is `name` |
| ExternalCommands.ExtensionIsTs | workspaces/external_commands/external_commands.rs:25-44 | the extension is "ts" exactly when the file name ends in ".ts" after a non-empty stem |
| ExternalCommands.Keep | workspaces/external_commands/external_commands.rs:28-40 | the keep condition of `find_all`: allowed as written, a file, extension "ts", and probed positive |
| ExternalCommands.KeptFilesAreMarkedTs | workspaces/external_commands/external_commands.rs:28-40 | a kept entry's file name ends in ".ts" after a non-empty stem, and some line of it holds the marker |
| ExternalCommands.KeepCorrected | workspaces/external_commands/external_commands.rs:28-40 | the keep condition with the corrected exclusion test |
| ExternalCommands.KeptPaths | workspaces/external_commands/external_commands.rs:28-40 | the pushed paths, in walk order, are never more than the walked entries |
| ExternalCommands.KeptPathsMembers | workspaces/external_commands/external_commands.rs:25-44 | a path is kept exactly when some walked entry at that path is allowed by the exclusion test as written, a `.ts` file, and read |
| ExternalCommands.KeptPathsAppend | workspaces/external_commands/external_commands.rs:25-44 | the kept paths of a longer walk extend those of its prefix, in walk order |
| ExternalCommands.KeptByMembers | workspaces/external_commands/external_commands.rs:28-40 | a filter over the walk keeps a path exactly when some file entry at that path passes it |
| ExternalCommands.KeptByAppend | workspaces/external_commands/external_commands.rs:28-40 | filtering a longer walk extends the filtered prefix, in walk order |
| ExternalCommands.KeptByAgree | workspaces/external_commands/external_commands.rs:28-40 | two keep conditions that decide every walked entry alike keep the same paths |
| ExternalCommands.KeptPathsStep | workspaces/external_commands/external_commands.rs:28-40 | one more walked entry adds its path exactly when it is kept |
| ExternalCommands.Registry | workspaces/external_commands/external_commands.rs:46-53 | the registry holds exactly the parsed names, each keyed by its own name, each a parsed command |
| ExternalCommands.RegistryLastWins | workspaces/external_commands/external_commands.rs:46-53 | of two commands with one name, the later one is kept |
| ExternalCommands.RegistryStep | workspaces/external_commands/external_commands.rs:49-51 | one more insertion adds that command under its name over the registry of the commands before it |
| ExternalCommands.InsertByName | workspaces/external_commands/external_commands.rs:47-52 | the insertion loop builds exactly the registry of its commands |
| ExternalCommands.Discover | workspaces/external_commands/external_commands.rs:25-53 | what `find_all` returns: every command keyed by its own name |
| ExternalCommands.DiscoverCorrected | workspaces/external_commands/external_commands.rs:25-53 | what `find_all` would return with the corrected exclusion test |
| ExternalCommands.DiscoverCorrectedAgrees | workspaces/external_commands/external_commands.rs:25-53 | when no walked file's path repeats the root prefix after its leading one, the discovery as written and the corrected one are equal (directories, the walked root among them, are unconstrained) |
| ExternalCommands.KeepCorrectedExcludesAtAnyDepth | workspaces/external_commands/external_commands.rs:79-109 | under the corrected test, no file with a restricted segment at any depth is kept |
| ExternalCommands.NestedTargetIsTs | workspaces/external_commands/external_commands.rs:34 | "/r/a/target/r/b.ts" has the extension "ts" |
| ExternalCommands.AsWrittenKeepsNestedTarget | workspaces/external_commands/external_commands.rs:28-40 | `find_all` as written keeps a marked ".ts" file in a nested `target` directory under root "/r"; the corrected keep condition drops it |
| ExternalCommands.CollectInstances | workspaces/external_commands/external_commands.rs:46-53 | the insertion loop builds exactly the registry of the commands parsed from the joined paths |
| ExternalCommands.FindAll | workspaces/external_commands/external_commands.rs:25-44 | the walk loop, with the exclusion test as written, collects the kept files and yields exactly the registry of their commands |
| ExternalCommands.DiscoveredFromKeptFiles | workspaces/external_commands/external_commands.rs:25-53 | every discovered command is keyed by its name and was declared in a file the walk kept as written |
| CommandValidations.FirstHit | workspaces/validations/command_validations.rs:42-100 | the fail-fast loop stops at the first name the other side holds, or runs out exactly when none is shared |
| CommandValidations.NoHitIffDisjoint | workspaces/validations/command_validations.rs:42-100 | over any iteration order, no hit happens exactly when the two name sets are disjoint |
| CommandValidations.InternalsVsExternals | workspaces/validations/command_validations.rs:42-60 | reports a collision exactly when a built-in name is registered, naming it and the declaring file |
| CommandValidations.InternalsVsRoot | workspaces/validations/command_validations.rs:62-79 | reports a collision exactly when a built-in name is a root command, naming the configuration file |
| CommandValidations.RootVsExternals | workspaces/validations/command_validations.rs:81-100 | reports a collision exactly when a root command is registered, naming the declaring file |
| CommandValidations.CollectAndValidateInternals | workspaces/validations/command_validations.rs:29-33 | yields the whole registry exactly when no built-in name is a root command |
| CommandValidations.CollectAndValidateExternals | workspaces/validations/command_validations.rs:35-40 | yields the discovered commands unchanged exactly when none is a root command |
| InternalRegistry.KeyedByName | workspaces/internal_commands/internal_registry.rs:48 | `HashMap::from` over (name, built-in) pairs holds exactly the given names, each keyed by its own definition name |
| InternalRegistry.Constructed | workspaces/internal_commands/internal_registry.rs:26-47 | each built-in is constructed from the root and the configuration |
| InternalRegistry.GetAll | workspaces/internal_commands/internal_registry.rs:25-49 | the registry's keys are exactly the five built-in names |
| InternalRegistry.KeyedByNameSize | workspaces/internal_commands/internal_registry.rs:48 | without repeated names, no pair is dropped |
| InternalRegistry.RegisteredNamesDistinct | workspaces/internal_commands/internal_registry.rs:26-47 | the registered built-ins have pairwise different names |
| InternalRegistry.RegisteredNamesAreBuiltin | workspaces/internal_commands/internal_registry.rs:26-47 | each registered built-in's name is one of the five names |
| InternalRegistry.BuiltinNameRegistered | workspaces/internal_commands/internal_registry.rs:26-47 | each of the five names belongs to a registered built-in |
| InternalRegistry.RegisteredKeys | workspaces/internal_commands/internal_registry.rs:25-49 | the keys of the map built from the constructed list are exactly the five names |
| InternalRegistry.GetAllContents | workspaces/internal_commands/internal_registry.rs:25-49 | each entry is keyed by its own name, is one of the constructed built-ins, and is built from the given root and configuration |
| InternalRegistry.GetAllSize | workspaces/internal_commands/internal_registry.rs:25-49 | the registry has one entry per registered built-in |
| RepoKit.Parse | workspaces/repokit/repokit.rs:69-79 | no command below two tokens; otherwise the command is the second token and the arguments are the rest |
| RepoKit.CommandLine | workspaces/repokit/repokit.rs:42 | `format!("{} {}", …)`: the script, then a space; its words are given by `CommandLineWords` |
| RepoKit.Parent | workspaces/repokit/repokit.rs:58 | `Path::parent`: nothing only for "" and "/", and otherwise a shorter prefix of the path |
| RepoKit.Invoke | workspaces/repokit/repokit.rs:31-67 | every command line the current entry point runs gets a working directory |
| RepoKit.Dispatch | workspaces/repokit/repokit.rs:50-64 | no argument lists the sub-commands; a run is of a known sub-command, in the parent directory of the declaring file |
| RepoKit.CommandLineWords | workspaces/repokit/repokit.rs:42 | the command line splits into the script's words followed by the arguments |
| RepoKit.ParentOfDeclaration | workspaces/repokit/repokit.rs:58 | the working directory of a declaration file is the directory holding it |
| RepoKit.ValidatedExternals | workspaces/repokit/repokit.rs:46-49 | the discovered commands pass exactly when they share no name with the root commands or the built-ins |
| RepoKit.ShortArgvShowsCatalogue | workspaces/repokit/repokit.rs:69-94 | below two tokens, the full listing is shown exactly when no source shares a name, and otherwise a collision is reported |
| RepoKit.BuiltinRootCollisionRejected | workspaces/repokit/repokit.rs:33-34 | a built-in name among the root commands rejects every invocation, naming the configuration file |
| RepoKit.BuiltinsMatchFirst | workspaces/repokit/repokit.rs:35-38 | a built-in name runs that built-in with the remaining arguments and the whole registry |
| RepoKit.RootCommandRunsInRoot | workspaces/repokit/repokit.rs:39-45 | a root command runs its script with the arguments joined by spaces, in the repository root |
| RepoKit.DiscoveredOutcomesAreValidated | workspaces/repokit/repokit.rs:46-66 | the listing, every sub-command outcome and not-found are reached only when every collision check passed |
| RepoKit.DiscoveredDispatch | workspaces/repokit/repokit.rs:50-66 | a registered command lists its sub-commands with no argument, reports an unknown sub-command, or runs the sub-command in its file's directory; an unknown name is not found |
| RepoKit.ScenarioConsistent | workspaces/repokit/repokit.rs:31-67 | a configuration with a `test` root command and a registered `deploy` command passes every check |
| RepoKit.DeployStagingRunsInPackage | workspaces/repokit/repokit.rs:55-62 | `repokit deploy staging --flag` runs the staging script with `--flag` in the declaring package's directory |
| RepoKit.SubCommandRunsBesideDeclaration | workspaces/repokit/repokit.rs:56-62 | a registered command's sub-command runs its script with the remaining words in the directory of the declaring file |
| RepoKit.TestRunsInRoot | workspaces/repokit/repokit.rs:39-45 | `repokit test` runs the root script in the repository root |
| RepoKit.DeployAloneLists | workspaces/repokit/repokit.rs:52-54 | `repokit deploy` lists the sub-commands of `deploy` |
| DevKit.InternalCommands | workspaces/devkit/devkit.rs:84-90 | the older entry point registers exactly `register-command` and `locate-command` |
| DevKit.InternalCommandsContents | workspaces/devkit/devkit.rs:84-90 | both are keyed by their own names and built from the root alone |
| DevKit.ConcatenatedCommandLine | workspaces/devkit/devkit.rs:60-64 | `format!("{}{}", …)`: starts with the script and is one character (the space) shorter than the spaced line |
| DevKit.ConcatenationFusesArgument | workspaces/devkit/devkit.rs:60-64 | as written, concatenating the script and a one-word argument adds no word: the argument is fused onto the script's last word |
| DevKit.TwoWordScriptWithArgument | workspaces/devkit/devkit.rs:60-64 | a two-word script plus an argument stays two words as written, and becomes three with the separating space |
| DevKit.FrozenLockfileAsWritten | workspaces/devkit/devkit.rs:60-64 | "yarn install" with "--frozen-lockfile" becomes "yarn install--frozen-lockfile" |
| DevKit.FrozenLockfileFused | workspaces/devkit/devkit.rs:60-64 | that command line has two words, not three |
| DevKit.FrozenLockfileSpaced | workspaces/repokit/repokit.rs:60 | with the separating space the command line is the three words "yarn", "install", "--frozen-lockfile" |
| DevKit.ShortArgvListsUnchecked | workspaces/devkit/devkit.rs:73-82 | below two tokens the older entry point lists its built-ins and the discovered commands, with no check |
| DevKit.Invoke | workspaces/devkit/devkit.rs:32-71 | the older entry point never chooses a working directory and runs built-ins with no registry, from the root |
| DevKit.InvokeCorrected | workspaces/devkit/devkit.rs:32-71 | the older entry point with the spaced line; it still never chooses a working directory |
| DevKit.BuiltinsFirstNoRootBranch | workspaces/devkit/devkit.rs:32-71 | built-ins run with no registry passed, there is no root-command branch, nothing else gets a working directory, and a collision is reported exactly when a built-in name is registered |
| DevKit.OtherNamesNeverChooseDirectory | workspaces/devkit/devkit.rs:43-70 | a name that is no built-in ends in a collision, a lookup outcome, or a run in the inherited directory; a collision exactly when a built-in name is registered |
| DevKit.DiscoveredDispatch | workspaces/devkit/devkit.rs:45-70 | the sub-command steps of the older entry point: sub-command listing, unknown sub-command, not found, and a known sub-command running its script fused to the remaining arguments (spaced in `InvokeCorrected`) |
| DevKit.SubCommandRuns | workspaces/devkit/devkit.rs:56-64 | a known sub-command runs its fused line, and its spaced line in `InvokeCorrected` |
| DevKit.CorrectionOnlyChangesTheLine | workspaces/devkit/devkit.rs:60-64 | the corrected dispatch differs from the written one only in the line of a sub-command that runs |
| DevKit.DeployFrozenLockfile | workspaces/devkit/devkit.rs:56-64 | `devkit deploy staging --frozen-lockfile` with the script "yarn install" runs "yarn install--frozen-lockfile" as written and "yarn install --frozen-lockfile" once corrected |
| DevKit.FrozenLockfileSpacedLine | workspaces/repokit/repokit.rs:60 | the spaced line for that script and argument is "yarn install --frozen-lockfile" |
| Help.InsertionSortedStep | workspaces/internal_commands/help.rs:80-92 | sorting one more element inserts it into the sorted prefix |
| Help.InsertInPlace | workspaces/internal_commands/help.rs:84 | shifting one element left in the array performs the stable insertion and leaves the rest untouched |
| Help.SortByKey | workspaces/internal_commands/help.rs:84 | the in-place sort leaves the array holding the stable insertion sort of its old contents |
| Help.InsertElements | workspaces/internal_commands/help.rs:84 | an insertion adds exactly the one element |
| Help.InsertionSortedPermutation | workspaces/internal_commands/help.rs:84 | sorting is a permutation |
| Help.InsertKeepsSorted | workspaces/internal_commands/help.rs:84 | inserting into a sorted sequence keeps it sorted |
| Help.InsertionSortedIsSorted | workspaces/internal_commands/help.rs:84 | the result is in nondecreasing key order |
| Help.SortedUnique | workspaces/internal_commands/help.rs:80-92 | two sorted permutations of one sequence are equal when equal keys mean equal elements |
| Help.ValuesIn | workspaces/internal_commands/help.rs:83 | `values().collect()` yields one value per visited key, in visiting order |
| Help.DistinctCounts | workspaces/internal_commands/help.rs:83 | helper lemma (a multiset fact used by `ValuesInAnyOrder`): a sequence without repetition holds each element once |
| Help.ValuesInAnyOrder | workspaces/internal_commands/help.rs:83 | for a name-keyed map, every visiting order yields the same values, each once |
| Help.SortedValues | workspaces/internal_commands/help.rs:80-92 | the sorted values of a name-keyed map are sorted, each value exactly once, and the same for every visiting order |
| Help.ToArray | workspaces/internal_commands/help.rs:83 | the new vector holds the collected values |
| Help.SortInternal | workspaces/internal_commands/help.rs:80-86 | yields the built-ins sorted by definition name |
| Help.SortExternal | workspaces/internal_commands/help.rs:88-92 | yields the registered commands sorted by name |
| Help.InternalLines | workspaces/internal_commands/help.rs:22-25 | two lines per built-in |
| Help.InternalLinesAt | workspaces/internal_commands/help.rs:22-25 | built-in `i` is printed on line `2i` of its block, followed by a blank line |
| Help.ExternalLines | workspaces/internal_commands/help.rs:28-31 | two lines per registered command |
| Help.ExternalLinesAt | workspaces/internal_commands/help.rs:28-31 | registered command `i` is printed with its sub-commands on line `2i` of its block, followed by a blank line |
| Help.PrintInternals | workspaces/internal_commands/help.rs:22-25 | the loop prints the built-ins' block |
| Help.PrintExternals | workspaces/internal_commands/help.rs:28-31 | the loop prints the registered commands' block |
| Help.Listing | workspaces/internal_commands/help.rs:15-32 | five fixed lines plus two per built-in and two per registered command |
| Help.ListAll | workspaces/internal_commands/help.rs:15-32 | prints the heading, the sorted built-ins, the second heading, and the sorted registered commands |
| Help.ListingEntries | workspaces/internal_commands/help.rs:15-32 | the position of each heading and entry: every built-in is printed before every registered command |
| Help.SortedValuesSize | workspaces/internal_commands/help.rs:80-92 | the sorted vector has one entry per map key |
| Help.ListingIgnoresOrder | workspaces/internal_commands/help.rs:15-32 | for name-keyed maps the listing does not depend on the maps' iteration order |
| ListCommands.Run | workspaces/internal_commands/list_commands.rs:54-74 | with no argument or an unknown scope the scope message is shown; "internal", "root" and "external" list their source, and "external" only after the root check |
| ListCommands.OnlyFirstArgumentMatters | workspaces/internal_commands/list_commands.rs:54-74 | arguments after the scope never change the outcome |
| ListCommands.InternalAndRootIgnoreDiscovery | workspaces/internal_commands/list_commands.rs:54-74 | the "internal" and "root" scopes do not depend on what was discovered |
| LocateCommand.Run | workspaces/internal_commands/locate_command.rs:33-52 | no name is rejected with an info message; a registered name yields its declaration file; an unknown name is reported |
| LocateCommand.OnlyFirstArgumentMatters | workspaces/internal_commands/locate_command.rs:33-52 | arguments after the name never change the outcome |
| LocateCommand.LocatedFileWasKept | workspaces/internal_commands/locate_command.rs:33-52 | a located file is one the discovery walk kept |
| ListOwners.OwnerColumn | workspaces/internal_commands/list_owners.rs:57-62 | the owner column has one entry per printed line |
| ListOwners.OwnersOf | workspaces/internal_commands/list_owners.rs:45-50 | every non-empty owner tag of a registered command, and never the empty tag |
| ListOwners.CollectOwners | workspaces/internal_commands/list_owners.rs:45-50 | the loop gathers exactly the non-empty owner tags of the registered commands |
| ListOwners.Elements | workspaces/internal_commands/list_owners.rs:55 | collecting the set lists each owner once |
| ListOwners.RepeatCounts | workspaces/internal_commands/list_owners.rs:55 | helper lemma (a multiset fact used by `PermutedEnumeration`): an element at two positions occurs twice |
| ListOwners.PermutedEnumeration | workspaces/internal_commands/list_owners.rs:56 | sorting the list still lists each owner once |
| ListOwners.Number | workspaces/internal_commands/list_owners.rs:57-62 | counting from 1, each owner is paired with its position |
| ListOwners.Run | workspaces/internal_commands/list_owners.rs:42-65 | a collision when a root command is registered; "no owners" exactly when no registered command has an owner; otherwise every owner once, sorted, numbered from 1 |
| ListOwners.ListingIsUnique | workspaces/internal_commands/list_owners.rs:55-62 | two listings of the same owners are equal, so the listing does not depend on hash order |
| ListOwners.ListingSize | workspaces/internal_commands/list_owners.rs:45-62 | one line per distinct owner, and every listed owner is the tag of a registered command |

## Left out

- I/O and processes. Printing, colours, indentation and exit codes are left out. So are spawning `npx tsx`, the JSON exchange with it, the thread pool in `find_all`, and running the command line. Each is replaced by an input or an `Outcome` value.
- The file system. The directory walk is an input sequence in walk order. Reading a file is its list of lines. `Path::parent` is `RepoKit.Parent`: the text before the last '/', with no path normalisation.
- The order of arguments and sub-commands. `print_args` and `print_commands` visit a `HashMap`, so their order is unspecified. A listing entry carries the whole map (`Help.Line`), not an order.
- The panics and `expect` calls on unreadable files, failed walks and failed JSON.
- The three commands that do their work through effects are constructed, named and dispatched, but their `run` bodies are not modelled: `register-command`, `onboard` and `upgrade-devkit` (which writes files, prompts, or shells out). `configuration.rs`, the logger and the executor are not modelled either.
- ListOwners.Run: owners are sorted by plain code-point order instead of the natural (alphanumeric) order of `alphanumeric_sort`. Natural order would put "team2" before "team10".
- `list-owners` is not listed in the registry (`internal_registry.rs:26-47`). It is modelled as a built-in that is implemented but not dispatched.
- Version drift in the core, resolved toward the callee as written:
  - `repokit.rs:73` calls `Help::list_all` with three arguments, but it takes two;
  - `command_validations.rs` constructs the registry with the root alone, but the registry takes a root and a configuration;
  - `Types.Declared.owner` exists only in the later command class (`src/RepoKitCommand.ts:5-15`); the older `src/DevKitCommand.ts` has no owner. Both are modelled with the one record, and a command from the older class carries the empty tag.
  - `internal_registry.rs:35-38` calls `LocateCommand::new(root, configuration)`, but `locate_command.rs:20` takes the root alone, and its `run` (`locate_command.rs:33`) takes no built-ins map. Here the model follows the registry's call: `InternalRegistry.Constructed` builds it from the root and the configuration. `LocateCommand.Run` reads neither.
  - `devkit.rs:44` calls an `ExternalCommands::validate` that is absent from `external_commands.rs`. It is modelled as the built-ins-versus-registered check.
- Duplicate registered names: `collect_instances` (`external_commands.rs:46-53`) overwrites an earlier entry with the same name. The last one wins and nothing is reported. The model follows the code (`ExternalCommands.RegistryLastWins`).
- The owner default of the command class (`src/RepoKitCommand.ts:11`, empty string). It is modelled as the empty tag that the owner listing skips.
- ExternalCommands.CollectInstances: takes the joined paths as the `--paths` value, intact. Two things are not modelled: the `--root` argument passed alongside it (`typescript_command.rs:36`), which a strict `parseArgs` rejects, and the shell splitting a path that contains spaces. A rejected call is the empty outcome of `CommandParser.NoPathsNoCommands`.
- CommandParser.Parse: a `parseArgs` failure is modelled as producing "" (the `catch` branch). Which flags cause that failure is not modelled.

## Findings

| source | as written | input that shows it | evidently intended | confidence | as-written member | corrected member |
|---|---|---|---|---|---|---|
| workspaces/external_commands/external_commands.rs:82 | the relative path is computed by replacing every occurrence of `root + "/"`, not only the leading one | root "/r", path "/r/a/target/r/b.ts": the relative path becomes "a/targetb.ts", the `target` segment is lost, and the file is kept | strip the root prefix once, so that a `target`, `node_modules` or dot segment at any depth excludes the file | not executed | ExternalCommands.AsWrittenKeepsNestedTarget | ExternalCommands.KeepCorrectedExcludesAtAnyDepth |
| workspaces/devkit/devkit.rs:60-64 | the sub-command's script and its joined arguments are concatenated with `"{}{}"`, with no space between them | script "yarn install", arguments ["--frozen-lockfile"]: the command line is "yarn install--frozen-lockfile" | a space between script and arguments, as in `repokit.rs:60` | not executed | DevKit.DeployFrozenLockfile | DevKit.FrozenLockfileSpaced |

The discovery pipeline (`Keep`, `KeptPaths`, `FindAll`, `Discover`) and `DevKit.Invoke` follow the code as written. The corrected variants sit beside them: `KeepCorrected` and `DiscoverCorrected`, and `DevKit.InvokeCorrected`. `DiscoverCorrectedAgrees` and `DevKit.CorrectionOnlyChangesTheLine` say where each pair differs.
