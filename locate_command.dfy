/**
 * The `locate-command` built-in: the first argument names a command, which
 * is looked up among the discovered commands, with no collision check.
 */
module LocateCommand {
  import opened Wrappers
  import opened Types
  import ExternalCommands
  import CommandParser

  /** What the built-in ends in. */
  datatype Located =
    | MissingName            // "Please specify a command to locate", exit 0
    | Location(path: string) // the declaring file is shown
    | Unknown(name: string)  // "I could not find a command named …", exit 0

  /** `run`: the first argument, looked up in what discovery returned. */
  function Run(args: seq<string>, discovered: map<string, ExternalCommand>): (r: Located)
    ensures r.MissingName? <==> args == []
    ensures args != [] && args[0] in discovered ==> r == Location(discovered[args[0]].location)
    ensures args != [] && args[0] !in discovered ==> r == Unknown(args[0])
  {
    if args == [] then MissingName
    else
      var name := args[0];
      if name in discovered then Location(discovered[name].location) else Unknown(name)
  }

  /** Only the first argument is used as the name. */
  lemma OnlyFirstArgumentMatters(args: seq<string>, discovered: map<string, ExternalCommand>)
    requires args != []
    ensures Run(args, discovered) == Run([args[0]], discovered)
  {
    assert [args[0]][0] == args[0];
  }

  /**
   * Over a walk of the repository, a located command was declared in a
   * walked file that every discovery filter kept, when no kept path holds a
   * comma.
   */
  lemma LocatedFileWasKept(args: seq<string>, root: string, entries: seq<ExternalCommands.WalkEntry>,
                           exportsOf: string -> seq<CommandParser.Export>)
    requires forall i :: 0 <= i < |entries| && ExternalCommands.Keep(root, entries[i]) ==> ',' !in entries[i].path
    requires Run(args, ExternalCommands.Discover(root, entries, exportsOf)).Location?
    ensures exists i :: 0 <= i < |entries| && ExternalCommands.Keep(root, entries[i]) &&
                        entries[i].path == Run(args, ExternalCommands.Discover(root, entries, exportsOf)).path
  {
    ExternalCommands.DiscoveredFromKeptFiles(root, entries, exportsOf, args[0]);
  }
}
