/**
 * The built-in registry: the built-ins of the current entry point, each
 * constructed with the root and the configuration, keyed by the name their
 * definition carries.
 */
module InternalRegistry {
  import opened Wrappers
  import opened Types

  /**
   * `HashMap::from` over (name, built-in) pairs: every built-in is reachable
   * by its own name, and a later pair overwrites an earlier one with that name.
   */
  function KeyedByName(items: seq<Internal>): (m: map<string, Internal>)
    ensures forall k :: k in m <==> exists i :: 0 <= i < |items| && NameOf(items[i]) == k
    ensures forall k :: k in m ==> NameOf(m[k]) == k && m[k] in items
    decreases |items|
  {
    if items == [] then map[]
    else
      var init := items[..|items| - 1];
      var last := items[|items| - 1];
      assert forall i :: 0 <= i < |init| ==> init[i] == items[i];
      KeyedByName(init)[NameOf(last) := last]
  }

  /** The kinds `get_all` constructs, in the order of its array literal. */
  const RegisteredKinds := [Onboarding, CommandListing, CommandLocating, CommandRegistration, DevKitUpgrade]

  /** The names of the registered built-ins. */
  const BuiltinNames := {"onboard", "list-commands", "locate-command", "register-command", "upgrade-devkit"}

  /** The array literal of `get_all`: every built-in gets the same root and configuration. */
  function Constructed(root: string, config: Config): (items: seq<Internal>)
    ensures |items| == |RegisteredKinds|
    ensures forall i :: 0 <= i < |items| ==>
      items[i] == Internal(RegisteredKinds[i], root, Some(config))
  {
    seq(|RegisteredKinds|, i requires 0 <= i < |RegisteredKinds| => Internal(RegisteredKinds[i], root, Some(config)))
  }

  /** `get_all`: the registered built-ins keyed by definition name, exactly the five built-in names. */
  function GetAll(root: string, config: Config): (m: map<string, Internal>)
    ensures m.Keys == BuiltinNames
  {
    RegisteredKeys(root, config);
    KeyedByName(Constructed(root, config))
  }

  /** Distinct names give a map with one entry per item. */
  lemma {:induction false} KeyedByNameSize(items: seq<Internal>)
    requires forall i, j :: 0 <= i < j < |items| ==> NameOf(items[i]) != NameOf(items[j])
    ensures |KeyedByName(items)| == |items|
    decreases |items|
  {
    if items != [] {
      var init := items[..|items| - 1];
      KeyedByNameSize(init);
    }
  }

  /** The registered kinds carry pairwise distinct names. */
  lemma RegisteredNamesDistinct()
    ensures forall i, j :: 0 <= i < j < |RegisteredKinds| ==>
      KindName(RegisteredKinds[i]) != KindName(RegisteredKinds[j])
  {
    forall i, j | 0 <= i < j < |RegisteredKinds|
      ensures KindName(RegisteredKinds[i]) != KindName(RegisteredKinds[j])
    {
      KindNamesDistinct(RegisteredKinds[i], RegisteredKinds[j]);
    }
  }

  /** Every name a registered kind carries is a built-in name. */
  lemma RegisteredNamesAreBuiltin(i: nat)
    requires i < |RegisteredKinds|
    ensures KindName(RegisteredKinds[i]) in BuiltinNames
  {
  }

  /** Every built-in name is carried by a registered kind. */
  lemma BuiltinNameRegistered(k: string)
    requires k in BuiltinNames
    ensures exists i :: 0 <= i < |RegisteredKinds| && KindName(RegisteredKinds[i]) == k
  {
    assert KindName(RegisteredKinds[0]) == "onboard";
    assert KindName(RegisteredKinds[1]) == "list-commands";
    assert KindName(RegisteredKinds[2]) == "locate-command";
    assert KindName(RegisteredKinds[3]) == "register-command";
    assert KindName(RegisteredKinds[4]) == "upgrade-devkit";
  }

  /** The registry is keyed by exactly the five built-in names. */
  lemma RegisteredKeys(root: string, config: Config)
    ensures KeyedByName(Constructed(root, config)).Keys == BuiltinNames
  {
    var items := Constructed(root, config);
    var m := KeyedByName(items);
    forall k | k in BuiltinNames ensures k in m {
      BuiltinNameRegistered(k);
      var i :| 0 <= i < |RegisteredKinds| && KindName(RegisteredKinds[i]) == k;
      assert NameOf(items[i]) == k;
    }
    forall k | k in m ensures k in BuiltinNames {
      var i :| 0 <= i < |items| && NameOf(items[i]) == k;
      RegisteredNamesAreBuiltin(i);
    }
  }

  /** The registry holds one entry per registered built-in: none is lost to a repeated name. */
  lemma GetAllSize(root: string, config: Config)
    ensures |GetAll(root, config)| == |RegisteredKinds|
  {
    RegisteredNamesDistinct();
    KeyedByNameSize(Constructed(root, config));
  }

  /**
   * Each entry of the registry is a registered built-in under its own
   * definition name, built with the given root and configuration.
   */
  lemma GetAllContents(root: string, config: Config)
    ensures forall k :: k in GetAll(root, config) ==>
      var b := GetAll(root, config)[k];
      NameOf(b) == k && b.kind in RegisteredKinds && b.root == root && b.configuration == Some(config)
  {
    var items := Constructed(root, config);
    var m := GetAll(root, config);
    assert m == KeyedByName(items);
    forall k | k in m
      ensures NameOf(m[k]) == k && m[k].kind in RegisteredKinds && m[k].root == root && m[k].configuration == Some(config)
    {
      var i :| 0 <= i < |items| && items[i] == m[k];
    }
  }
}
