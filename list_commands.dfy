/**
 * The `list-commands` built-in: the first argument selects one of three
 * scopes, and each scope lists the commands of one source.
 */
module ListCommands {
  import opened Types
  import opened CommandValidations

  /** The accepted scopes, in the order the built-in tests them. */
  const Scopes := ["internal", "external", "root"]

  /** What the built-in ends in. */
  datatype Listed =
    | InvalidScope                                        // the scope message, exit 0
    | InternalList(internals: map<string, Internal>)
    | ExternalList(externals: map<string, ExternalCommand>)
    | RootList(commands: map<string, Command>)
    | ListCollided(collision: Collision)                  // the external scope's check failed

  /**
   * `run`: no argument, or a first argument outside the scopes, is rejected;
   * "internal" lists the built-ins it was given, "root" the configuration's
   * commands, and "external" the discovered commands once they pass the
   * check against the root commands.
   */
  function Run(args: seq<string>, internals: map<string, Internal>, config: Config,
               discovered: map<string, ExternalCommand>, order: seq<string>): (r: Listed)
    requires Enumerates(order, discovered.Keys)
    ensures r.InvalidScope? <==> args == [] || args[0] !in Scopes
    ensures args != [] && args[0] == "internal" ==> r == InternalList(internals)
    ensures args != [] && args[0] == "root" ==> r == RootList(config.commands)
    ensures args != [] && args[0] == "external" ==>
      (r.ExternalList? || r.ListCollided?) &&
      (r.ExternalList? <==> config.commands.Keys !! discovered.Keys) &&
      (r.ExternalList? ==> r.externals == discovered)
  {
    if args == [] then InvalidScope
    else
      var scope := args[0];
      if scope !in Scopes then InvalidScope
      else if scope == Scopes[0] then InternalList(internals)
      else if scope == Scopes[1] then
        match CollectAndValidateExternals(config, discovered, order)
        case Failure(c) => ListCollided(c)
        case Success(externals) => ExternalList(externals)
      else if scope == Scopes[2] then RootList(config.commands)
      else assert false; InvalidScope
  }

  /** Only the first argument is inspected: the rest never change the outcome. */
  lemma OnlyFirstArgumentMatters(args: seq<string>, internals: map<string, Internal>, config: Config,
                                 discovered: map<string, ExternalCommand>, order: seq<string>)
    requires Enumerates(order, discovered.Keys)
    requires args != []
    ensures Run(args, internals, config, discovered, order) == Run([args[0]], internals, config, discovered, order)
  {
    assert [args[0]][0] == args[0];
  }

  /**
   * The "internal" and "root" scopes never look at the discovered commands:
   * the outcome is the same whatever was discovered.
   */
  lemma InternalAndRootIgnoreDiscovery(args: seq<string>, internals: map<string, Internal>, config: Config,
                                       discovered: map<string, ExternalCommand>, order: seq<string>,
                                       other: map<string, ExternalCommand>, otherOrder: seq<string>)
    requires Enumerates(order, discovered.Keys) && Enumerates(otherOrder, other.Keys)
    requires args != [] && args[0] in {"internal", "root"}
    ensures Run(args, internals, config, discovered, order) == Run(args, internals, config, other, otherOrder)
  {
  }
}
