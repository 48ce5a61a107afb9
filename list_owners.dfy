/**
 * The `list-owners` built-in: gather the distinct non-empty owner tags of
 * the discovered commands, sort them, and number them from 1.
 */
module ListOwners {
  import opened Wrappers
  import opened Types
  import opened CommandValidations
  import opened Help

  /** One printed line of the listing: `<number>. <owner>`. */
  datatype NumberedOwner = NumberedOwner(number: nat, owner: string)

  /** What the built-in ends in. */
  datatype Owners =
    | OwnersCollided(collision: Collision)     // the discovered commands failed the check against the root commands
    | NoOwners                                 // "No owners found"
    | Numbered(entries: seq<NumberedOwner>)

  /** The owner tags the discovered commands carry, the empty tag excepted. */
  function OwnersOf(discovered: map<string, ExternalCommand>): (owners: set<string>)
    ensures "" !in owners
    ensures forall k | k in discovered && discovered[k].owner != "" :: discovered[k].owner in owners
  {
    set k | k in discovered && discovered[k].owner != "" :: discovered[k].owner
  }

  /** The owners of the commands visited so far. */
  function OwnersAmong(discovered: map<string, ExternalCommand>, visited: seq<string>): set<string>
    requires forall i :: 0 <= i < |visited| ==> visited[i] in discovered
  {
    set i | 0 <= i < |visited| && discovered[visited[i]].owner != "" :: discovered[visited[i]].owner
  }

  /** Owners are compared as whole strings. */
  function Verbatim(owner: string): string
  {
    owner
  }

  /** The owner column of a listing. */
  function OwnerColumn(entries: seq<NumberedOwner>): (owners: seq<string>)
    ensures |owners| == |entries|
    ensures forall i :: 0 <= i < |entries| ==> owners[i] == entries[i].owner
  {
    seq(|entries|, i requires 0 <= i < |entries| => entries[i].owner)
  }

  /**
   * A listing of `owners`: each owner exactly once, in nondecreasing order,
   * numbered 1, 2, ... from the top.
   */
  predicate NumberedListing(entries: seq<NumberedOwner>, owners: set<string>)
  {
    && Enumerates(OwnerColumn(entries), owners)
    && SortedBy(OwnerColumn(entries), Verbatim)
    && (forall i :: 0 <= i < |entries| ==> entries[i].number == i + 1)
  }

  /** The loop over the registered commands, inserting each non-empty owner into a set. */
  method CollectOwners(discovered: map<string, ExternalCommand>, order: seq<string>) returns (owners: set<string>)
    requires Enumerates(order, discovered.Keys)
    ensures owners == OwnersOf(discovered)
  {
    owners := {};
    for i := 0 to |order|
      invariant owners == OwnersAmong(discovered, order[..i])
    {
      var command := discovered[order[i]];
      if command.owner != "" {
        owners := owners + {command.owner};
      }
      assert forall j :: 0 <= j < i ==> order[..i + 1][j] == order[..i][j];
    }
    assert order[..|order|] == order;
    forall o | o in OwnersOf(discovered) ensures o in owners {
      var k :| k in discovered && discovered[k].owner != "" && discovered[k].owner == o;
      var i :| 0 <= i < |order| && order[i] == k;
    }
  }

  /** `into_iter().collect()`: the set's elements in an order the model leaves open. */
  method Elements(owners: set<string>) returns (list: seq<string>)
    ensures Enumerates(list, owners)
  {
    list := [];
    var rest := owners;
    while rest != {}
      invariant Enumerates(list, owners - rest)
      invariant rest <= owners
      decreases rest
    {
      var owner :| owner in rest;
      list := list + [owner];
      rest := rest - {owner};
    }
  }

  /** An element at two positions occurs at least twice. */
  lemma RepeatCounts(ys: seq<string>, i: nat, j: nat)
    requires i < j < |ys|
    ensures ys[i] == ys[j] ==> multiset(ys)[ys[i]] >= 2
  {
    assert ys == ys[..i] + [ys[i]] + ys[i + 1..j] + [ys[j]] + ys[j + 1..];
  }

  /** A rearrangement of an enumeration enumerates the same set. */
  lemma PermutedEnumeration(xs: seq<string>, ys: seq<string>, s: set<string>)
    requires Enumerates(xs, s)
    requires multiset(ys) == multiset(xs)
    ensures Enumerates(ys, s)
  {
    assert Distinct(xs);
    forall i, j | 0 <= i < j < |ys| ensures ys[i] != ys[j] {
      DistinctCounts(xs, ys[i]);
      RepeatCounts(ys, i, j);
    }
    forall k | k in s ensures k in ys {
      assert k in multiset(xs);
    }
    forall i | 0 <= i < |ys| ensures ys[i] in s {
      assert ys[i] in multiset(ys);
    }
  }

  /** `enumerate()` from 1: each owner paired with its position. */
  method Number(list: seq<string>) returns (entries: seq<NumberedOwner>)
    ensures |entries| == |list|
    ensures forall i :: 0 <= i < |list| ==> entries[i] == NumberedOwner(i + 1, list[i])
  {
    entries := [];
    for i := 0 to |list|
      invariant |entries| == i
      invariant forall j :: 0 <= j < i ==> entries[j] == NumberedOwner(j + 1, list[j])
    {
      entries := entries + [NumberedOwner(i + 1, list[i])];
    }
  }

  /**
   * `run`: the discovered commands must pass the check against the root
   * commands; no non-empty owner ends in "No owners found"; otherwise every
   * owner is listed once, sorted, and numbered from 1.
   */
  method Run(config: Config, discovered: map<string, ExternalCommand>, order: seq<string>) returns (r: Owners)
    requires Enumerates(order, discovered.Keys)
    ensures r.OwnersCollided? <==> !(config.commands.Keys !! discovered.Keys)
    ensures r.OwnersCollided? ==> r.collision.name in config.commands && r.collision.name in discovered
    ensures r.NoOwners? <==> config.commands.Keys !! discovered.Keys && OwnersOf(discovered) == {}
    ensures r.Numbered? ==> NumberedListing(r.entries, OwnersOf(discovered)) && r.entries != []
  {
    var registered;
    match CollectAndValidateExternals(config, discovered, order)
    case Failure(c) => return OwnersCollided(c);
    case Success(commands) => registered := commands;
    var owners := CollectOwners(registered, order);
    if owners == {} {
      return NoOwners;
    }
    var unsorted := Elements(owners);
    var list := ToArray(unsorted);
    SortByKey(list, Verbatim);
    InsertionSortedIsSorted(unsorted, Verbatim);
    InsertionSortedPermutation(unsorted, Verbatim);
    PermutedEnumeration(unsorted, list[..], owners);
    var entries := Number(list[..]);
    assert OwnerColumn(entries) == list[..];
    var o :| o in owners;
    assert o in OwnerColumn(entries);
    r := Numbered(entries);
  }

  /**
   * The listing does not depend on the order the set or the map was visited
   * in: two listings of the same owners are equal.
   */
  lemma ListingIsUnique(entries: seq<NumberedOwner>, others: seq<NumberedOwner>, owners: set<string>)
    requires NumberedListing(entries, owners) && NumberedListing(others, owners)
    ensures entries == others
  {
    var xs, ys := OwnerColumn(entries), OwnerColumn(others);
    EnumerationSize(xs, owners);
    EnumerationSize(ys, owners);
    assert multiset(xs) == multiset(ys) by {
      forall v ensures multiset(xs)[v] == multiset(ys)[v] {
        DistinctCounts(xs, v);
        DistinctCounts(ys, v);
      }
    }
    SortedUnique(xs, ys, Verbatim);
    forall i | 0 <= i < |entries| ensures entries[i] == others[i] {
      assert xs[i] == ys[i];
    }
  }

  /** A listing has as many lines as there are distinct non-empty owners. */
  lemma ListingSize(entries: seq<NumberedOwner>, discovered: map<string, ExternalCommand>)
    requires NumberedListing(entries, OwnersOf(discovered))
    ensures |entries| == |OwnersOf(discovered)|
    ensures forall i :: 0 <= i < |entries| ==> exists k :: k in discovered && discovered[k].owner == entries[i].owner != ""
  {
    EnumerationSize(OwnerColumn(entries), OwnersOf(discovered));
    forall i | 0 <= i < |entries|
      ensures exists k :: k in discovered && discovered[k].owner == entries[i].owner != ""
    {
      assert OwnerColumn(entries)[i] in OwnersOf(discovered);
    }
  }
}
