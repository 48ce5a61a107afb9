/**
 * The collision checks between the three sources of command names: the
 * built-ins, the root commands of the configuration, and the commands
 * discovered in the repository. Each check walks one map in its iteration
 * order (an explicit `order` here) and stops at the first name the other
 * map also holds; stopping is modelled as a `Collision` result.
 */
module CommandValidations {
  import opened Wrappers
  import opened Types
  import InternalRegistry

  /** Where the colliding name was declared: the configuration file or a source file. */
  datatype Location = ConfigurationFile | DeclaredIn(path: string)

  /** The one collision a check reports before it terminates. */
  datatype Collision = Collision(name: string, location: Location)

  /** The position of the first name of `order` that `other` holds: where a fail-fast loop stops. */
  function FirstHit(order: seq<string>, other: set<string>): (r: Option<nat>)
    ensures r.None? <==> forall i :: 0 <= i < |order| ==> order[i] !in other
    ensures r.Some? ==> r.value < |order| && order[r.value] in other
    ensures r.Some? ==> forall i :: 0 <= i < r.value ==> order[i] !in other
    decreases |order|
  {
    if order == [] then None
    else if order[0] in other then Some(0)
    else
      assert forall i :: 0 < i < |order| ==> order[i] == order[1..][i - 1];
      match FirstHit(order[1..], other)
      case None => None
      case Some(i) => Some(i + 1)
  }

  /** Over an enumeration of `keys`, the loop runs to completion iff the key sets are disjoint. */
  lemma NoHitIffDisjoint(order: seq<string>, keys: set<string>, other: set<string>)
    requires Enumerates(order, keys)
    ensures FirstHit(order, other).None? <==> keys !! other
  {
    if !(keys !! other) {
      var k :| k in keys && k in other;
      var i :| 0 <= i < |order| && order[i] == k;
    }
  }

  /**
   * `detect_collisions_between_internals_and_externals`: iterate the
   * discovered commands; the first one whose name is a built-in is reported
   * with the file it was declared in.
   */
  function InternalsVsExternals(internals: map<string, Internal>, externals: map<string, ExternalCommand>,
                                order: seq<string>): (r: Option<Collision>)
    requires Enumerates(order, externals.Keys)
    ensures r.None? <==> internals.Keys !! externals.Keys
    ensures r.Some? ==> r.value.name in internals && r.value.name in externals
    ensures r.Some? ==> r.value.location == DeclaredIn(externals[r.value.name].location)
  {
    NoHitIffDisjoint(order, externals.Keys, internals.Keys);
    match FirstHit(order, internals.Keys)
    case None => None
    case Some(i) => Some(Collision(order[i], DeclaredIn(externals[order[i]].location)))
  }

  /**
   * `detect_collisions_between_internals_and_root_commands`: iterate the
   * built-in names; the first one the configuration also defines is reported
   * as a configuration-file collision.
   */
  function InternalsVsRoot(internals: map<string, Internal>, config: Config, order: seq<string>)
    : (r: Option<Collision>)
    requires Enumerates(order, internals.Keys)
    ensures r.None? <==> internals.Keys !! config.commands.Keys
    ensures r.Some? ==> r.value.name in internals && r.value.name in config.commands
    ensures r.Some? ==> r.value.location == ConfigurationFile
  {
    NoHitIffDisjoint(order, internals.Keys, config.commands.Keys);
    match FirstHit(order, config.commands.Keys)
    case None => None
    case Some(i) => Some(Collision(order[i], ConfigurationFile))
  }

  /**
   * `detect_collisions_between_root_commands_and_externals`: iterate the
   * discovered commands; the first one the configuration also defines is
   * reported with the file it was declared in.
   */
  function RootVsExternals(config: Config, externals: map<string, ExternalCommand>, order: seq<string>)
    : (r: Option<Collision>)
    requires Enumerates(order, externals.Keys)
    ensures r.None? <==> config.commands.Keys !! externals.Keys
    ensures r.Some? ==> r.value.name in config.commands && r.value.name in externals
    ensures r.Some? ==> r.value.location == DeclaredIn(externals[r.value.name].location)
  {
    NoHitIffDisjoint(order, externals.Keys, config.commands.Keys);
    match FirstHit(order, config.commands.Keys)
    case None => None
    case Some(i) => Some(Collision(order[i], DeclaredIn(externals[order[i]].location)))
  }

  /**
   * `collect_and_validate_internals`: the registry, returned unmodified, but
   * only when no built-in name is also a root command.
   */
  function CollectAndValidateInternals(root: string, config: Config, order: seq<string>)
    : (r: Result<map<string, Internal>, Collision>)
    requires Enumerates(order, InternalRegistry.GetAll(root, config).Keys)
    ensures r.Success? <==> InternalRegistry.GetAll(root, config).Keys !! config.commands.Keys
    ensures r.Success? ==> r.value == InternalRegistry.GetAll(root, config)
    ensures r.Failure? ==> r.error.name in InternalRegistry.BuiltinNames && r.error.name in config.commands
  {
    var internals := InternalRegistry.GetAll(root, config);
    match InternalsVsRoot(internals, config, order)
    case None => Success(internals)
    case Some(c) => Failure(c)
  }

  /**
   * `collect_and_validate_externals`: the discovered commands, returned
   * unmodified, but only when none of them is also a root command.
   */
  function CollectAndValidateExternals(config: Config, discovered: map<string, ExternalCommand>,
                                       order: seq<string>): (r: Result<map<string, ExternalCommand>, Collision>)
    requires Enumerates(order, discovered.Keys)
    ensures r.Success? <==> config.commands.Keys !! discovered.Keys
    ensures r.Success? ==> r.value == discovered
    ensures r.Failure? ==> r.error.name in config.commands && r.error.name in discovered
  {
    match RootVsExternals(config, discovered, order)
    case None => Success(discovered)
    case Some(c) => Failure(c)
  }
}
