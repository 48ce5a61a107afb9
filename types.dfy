/**
 * The records the core passes around: a configuration command, the project
 * configuration, a discovered ("registered") command, and the built-in
 * commands with their definitions.
 */
module Types {
  import opened Wrappers

  /** A runnable script and its description (`Command` / `ICommand`). */
  datatype Command = Command(command: string, description: string)

  /** The project configuration: the project name and its root commands. */
  datatype Config = Config(project: string, commands: map<string, Command>)

  /**
   * A command declared in a source file of the repository: its name, the
   * file it was declared in, a description, an owner tag ("" when the
   * declaration gives none) and its sub-commands by name.
   */
  datatype ExternalCommand = ExternalCommand(
    name: string,
    location: string,
    description: string,
    owner: string,
    commands: map<string, Command>)

  /** The built-in commands, one variant per implementing struct. */
  datatype BuiltinKind =
    | Onboarding          // Onboarder
    | CommandListing      // ListCommands
    | CommandLocating     // LocateCommand
    | CommandRegistration // RegisterCommand
    | DevKitUpgrade       // UpgradeDevKit
    | OwnerListing        // ListOwners

  /** What a built-in tells about itself: name, description, argument help. */
  datatype Definition = Definition(name: string, description: string, args: map<string, string>)

  /**
   * A constructed built-in: its kind and what its constructor was given.
   * The older entry point constructs some built-ins from the root alone.
   */
  datatype Internal = Internal(kind: BuiltinKind, root: string, configuration: Option<Config>)

  /** The name each built-in's constructor stores in its definition. */
  function KindName(kind: BuiltinKind): string
  {
    match kind
    case Onboarding => "onboard"
    case CommandListing => "list-commands"
    case CommandLocating => "locate-command"
    case CommandRegistration => "register-command"
    case DevKitUpgrade => "upgrade-devkit"
    case OwnerListing => "list-owners"
  }

  /** The description each built-in's constructor stores. */
  function DescriptionOf(kind: BuiltinKind): string
  {
    match kind
    case Onboarding => "Onboarding instructions for first time users"
    case CommandListing => "List commands based on their scope of definition"
    case CommandLocating => "Locates command definitions"
    case CommandRegistration => "Creates new Devkit commands"
    case DevKitUpgrade => "Upgrades your installation of devkit to the latest stable version"
    case OwnerListing => "Lists all registered command owners"
  }

  /** The argument help each built-in's constructor stores. */
  function ArgsOf(kind: BuiltinKind): map<string, string>
  {
    match kind
    case CommandListing =>
      map["<scope>" := "The scope of the commands you wish to list. Specify one of internal | external | root"]
    case CommandLocating => map["<name>" := "The name of a registered command"]
    case CommandRegistration => map["--path | -p" := "A relative path to your preferred command location"]
    case _ => map[]
  }

  /** The literal definition each built-in's constructor stores. */
  function DefinitionOf(kind: BuiltinKind): Definition
  {
    Definition(KindName(kind), DescriptionOf(kind), ArgsOf(kind))
  }

  /** `get_definition().name` */
  function NameOf(internal: Internal): string
  {
    KindName(internal.kind)
  }

  /** Different built-ins carry different names. */
  lemma KindNamesDistinct(a: BuiltinKind, b: BuiltinKind)
    requires a != b
    ensures KindName(a) != KindName(b)
  {
    var x, y := KindName(a), KindName(b);
    assert |x| != |y| || x[0] != y[0];
  }

  /**
   * `order` lists every key of a map exactly once: an iteration order of a
   * `HashMap`, which Rust leaves unspecified.
   */
  predicate Enumerates(order: seq<string>, keys: set<string>)
  {
    && (forall i, j :: 0 <= i < j < |order| ==> order[i] != order[j])
    && (forall k | k in keys :: k in order)
    && (forall i | 0 <= i < |order| :: order[i] in keys)
  }

  /** An enumeration has one entry per key. */
  lemma {:induction false} EnumerationSize(order: seq<string>, keys: set<string>)
    requires Enumerates(order, keys)
    ensures |order| == |keys|
    decreases |order|
  {
    if order != [] {
      var last := order[|order| - 1];
      var init := order[..|order| - 1];
      assert last !in init;
      assert Enumerates(init, keys - {last});
      EnumerationSize(init, keys - {last});
    }
  }
}
