/**
 * The listings: the built-ins and the discovered commands are each sorted
 * by name with a stable in-place sort over their map's values, and the full
 * listing shows every built-in, then every discovered command. The order
 * in which one entry's arguments or sub-commands print follows a map's
 * iteration order and stays inside the entry.
 */
module Help {
  import opened Strings
  import opened Types

  /** Sorted by key in Rust's string order. */
  predicate SortedBy<T>(xs: seq<T>, key: T -> string)
  {
    forall i, j :: 0 <= i < j < |xs| ==> LexLe(key(xs[i]), key(xs[j]))
  }

  /** Stable insertion of `x` into `sorted`: after every element whose key is not greater. */
  function Insert<T>(sorted: seq<T>, x: T, key: T -> string): (r: seq<T>)
    decreases |sorted|
  {
    if sorted == [] then [x]
    else
      var last := sorted[|sorted| - 1];
      if LexLe(key(last), key(x)) then sorted + [x]
      else Insert(sorted[..|sorted| - 1], x, key) + [last]
  }

  /** `sort_by_key` as a function: stable insertion sort, element by element. */
  function InsertionSorted<T>(xs: seq<T>, key: T -> string): seq<T>
    decreases |xs|
  {
    if xs == [] then []
    else Insert(InsertionSorted(xs[..|xs| - 1], key), xs[|xs| - 1], key)
  }

  /** Sorting one more element inserts it into the sorted prefix. */
  lemma InsertionSortedStep<T>(xs: seq<T>, i: nat, key: T -> string)
    requires i < |xs|
    ensures InsertionSorted(xs[..i + 1], key) == Insert(InsertionSorted(xs[..i], key), xs[i], key)
  {
    assert xs[..i + 1][..i] == xs[..i];
  }

  /** One step of moving `x` left past a greater `q`. */
  lemma InsertPastGreater<T>(init: seq<T>, q: T, x: T, key: T -> string)
    requires !LexLe(key(q), key(x))
    ensures Insert(init + [q], x, key) == Insert(init, x, key) + [q]
  {
    assert (init + [q])[..|init + [q]| - 1] == init;
  }

  /** A place where `x` is not less than its left neighbour: inserting appends. */
  lemma InsertAtStop<T>(prefix: seq<T>, x: T, key: T -> string)
    requires prefix == [] || LexLe(key(prefix[|prefix| - 1]), key(x))
    ensures Insert(prefix, x, key) == prefix + [x]
  {
  }

  /** Moves `a[i]` left past every greater key: a stable insertion into the sorted `a[..i]`. */
  method InsertInPlace<T>(a: array<T>, i: nat, key: T -> string)
    requires i < a.Length
    modifies a
    ensures a[..i + 1] == Insert(old(a[..i]), old(a[i]), key)
    ensures a[i + 1..] == old(a[i + 1..])
  {
    ghost var prefix := a[..i];
    ghost var rest := a[i + 1..];
    var x := a[i];
    var j := i;
    assert a[..i] + a[i + 1..i + 1] == prefix;
    while j > 0 && !LexLe(key(a[j - 1]), key(x))
      invariant 0 <= j <= i
      invariant a[j] == x
      invariant a[i + 1..] == rest
      invariant a[..j] + a[j + 1..i + 1] == prefix
      invariant Insert(prefix, x, key) == Insert(a[..j], x, key) + a[j + 1..i + 1]
    {
      Step(a, j, i, x, prefix, key);
      j := j - 1;
    }
    InsertAtStop(a[..j], x, key);
    assert a[..i + 1] == a[..j] + [x] + a[j + 1..i + 1];
  }

  /**
   * One swap of the insertion: `x` at `j` changes places with its greater
   * left neighbour, and the insertion's bookkeeping moves one place left.
   */
  method Step<T>(a: array<T>, j: nat, i: nat, ghost x: T, ghost prefix: seq<T>, key: T -> string)
    requires 0 < j <= i < a.Length && a[j] == x && !LexLe(key(a[j - 1]), key(x))
    requires a[..j] + a[j + 1..i + 1] == prefix
    requires Insert(prefix, x, key) == Insert(a[..j], x, key) + a[j + 1..i + 1]
    modifies a
    ensures a[j - 1] == x
    ensures a[i + 1..] == old(a[i + 1..])
    ensures a[..j - 1] + a[j..i + 1] == prefix
    ensures Insert(prefix, x, key) == Insert(a[..j - 1], x, key) + a[j..i + 1]
  {
    ghost var before, q, after := a[..j - 1], a[j - 1], a[j + 1..i + 1];
    InsertPastGreater(before, q, x, key);
    assert a[..j] == before + [q];
    a[j - 1], a[j] := a[j], a[j - 1];
    assert a[..j - 1] == before;
    assert a[j..i + 1] == [q] + after;
    assert prefix == before + ([q] + after);
  }

  /** `sort_by_key` in place: the insertion sort the source's stable sort is specified by. */
  method SortByKey<T>(a: array<T>, key: T -> string)
    modifies a
    ensures a[..] == InsertionSorted(old(a[..]), key)
  {
    ghost var original := a[..];
    for i := 0 to a.Length
      invariant a[..i] == InsertionSorted(original[..i], key)
      invariant a[i..] == original[i..]
    {
      assert a[i] == original[i];
      InsertInPlace(a, i, key);
      InsertionSortedStep(original, i, key);
      assert a[i + 1..] == original[i + 1..];
    }
    assert original[..a.Length] == original;
  }

  /** An insertion adds exactly the one element. */
  lemma {:induction false} InsertElements<T>(sorted: seq<T>, x: T, key: T -> string)
    ensures multiset(Insert(sorted, x, key)) == multiset(sorted) + multiset{x}
    decreases |sorted|
  {
    if sorted != [] {
      var init := sorted[..|sorted| - 1];
      var last := sorted[|sorted| - 1];
      assert sorted == init + [last];
      if !LexLe(key(last), key(x)) {
        InsertElements(init, x, key);
      }
    }
  }

  /** The sort returns a permutation of its input. */
  lemma {:induction false} InsertionSortedPermutation<T>(xs: seq<T>, key: T -> string)
    ensures multiset(InsertionSorted(xs, key)) == multiset(xs)
    decreases |xs|
  {
    if xs != [] {
      var init := xs[..|xs| - 1];
      InsertionSortedPermutation(init, key);
      InsertElements(InsertionSorted(init, key), xs[|xs| - 1], key);
      assert xs == init + [xs[|xs| - 1]];
    }
  }

  /** Inserting into a sorted sequence keeps it sorted. */
  lemma {:induction false} InsertKeepsSorted<T>(sorted: seq<T>, x: T, key: T -> string)
    requires SortedBy(sorted, key)
    ensures SortedBy(Insert(sorted, x, key), key)
    decreases |sorted|
  {
    if sorted != [] {
      var init := sorted[..|sorted| - 1];
      var last := sorted[|sorted| - 1];
      if LexLe(key(last), key(x)) {
        forall i | 0 <= i < |sorted| ensures LexLe(key(sorted[i]), key(x)) {
          if i < |sorted| - 1 {
            LexLeTransitive(key(sorted[i]), key(last), key(x));
          }
        }
      } else {
        assert SortedBy(init, key);
        InsertKeepsSorted(init, x, key);
        var r := Insert(init, x, key);
        LexLeTotal(key(last), key(x));
        InsertElements(init, x, key);
        forall i | 0 <= i < |r| ensures LexLe(key(r[i]), key(last)) {
          assert r[i] in multiset(r);
          if r[i] != x {
            assert r[i] in multiset(init);
            var k :| 0 <= k < |init| && init[k] == r[i];
            assert sorted[k] == init[k];
          }
        }
      }
    }
  }

  /** The sort returns its input in nondecreasing key order. */
  lemma {:induction false} InsertionSortedIsSorted<T>(xs: seq<T>, key: T -> string)
    ensures SortedBy(InsertionSorted(xs, key), key)
    decreases |xs|
  {
    if xs != [] {
      InsertionSortedIsSorted(xs[..|xs| - 1], key);
      InsertKeepsSorted(InsertionSorted(xs[..|xs| - 1], key), xs[|xs| - 1], key);
    }
  }

  /** Elements that share a key are the same element. */
  predicate KeyInjective<T(==)>(xs: seq<T>, key: T -> string)
  {
    forall i, j :: 0 <= i < |xs| && 0 <= j < |xs| && key(xs[i]) == key(xs[j]) ==> xs[i] == xs[j]
  }

  /**
   * When no two different elements share a key, there is only one sorted
   * arrangement of a multiset: the sorted result does not depend on the
   * order of the input.
   */
  lemma {:induction false} SortedUnique<T>(xs: seq<T>, ys: seq<T>, key: T -> string)
    requires SortedBy(xs, key) && SortedBy(ys, key)
    requires multiset(xs) == multiset(ys)
    requires KeyInjective(xs, key)
    ensures xs == ys
    decreases |xs|
  {
    if xs == [] {
      assert |ys| == |multiset(ys)| == 0;
    } else {
      assert |ys| == |multiset(ys)| == |xs|;
      SortedHeads(xs, ys, key);
      DropHead(xs);
      DropHead(ys);
      SortedUnique(xs[1..], ys[1..], key);
    }
  }

  /** Two sorted arrangements of one multiset start with the same element, when keys identify elements. */
  lemma SortedHeads<T>(xs: seq<T>, ys: seq<T>, key: T -> string)
    requires xs != [] && ys != []
    requires SortedBy(xs, key) && SortedBy(ys, key)
    requires multiset(xs) == multiset(ys)
    requires KeyInjective(xs, key)
    ensures xs[0] == ys[0]
  {
    assert ys[0] in multiset(xs);
    var k :| 0 <= k < |xs| && xs[k] == ys[0];
    assert xs[0] in multiset(ys);
    var m :| 0 <= m < |ys| && ys[m] == xs[0];
    LexLeTotal(key(xs[0]), key(xs[0]));
    assert LexLe(key(xs[0]), key(xs[k]));
    assert LexLe(key(ys[0]), key(ys[m]));
    LexLeAntisymmetric(key(xs[0]), key(xs[k]));
  }

  /** Dropping the first element takes one copy of it out of the multiset. */
  lemma DropHead<T>(xs: seq<T>)
    requires xs != []
    ensures multiset(xs[1..]) == multiset(xs) - multiset{xs[0]}
  {
    assert xs == [xs[0]] + xs[1..];
  }

  // ---- the values of a map, in an iteration order ----

  /** `map.values().collect()`: the values in the order the keys are visited. */
  function ValuesIn<V>(m: map<string, V>, order: seq<string>): (vs: seq<V>)
    requires forall i :: 0 <= i < |order| ==> order[i] in m
    ensures |vs| == |order|
    ensures forall i :: 0 <= i < |order| ==> vs[i] == m[order[i]]
  {
    seq(|order|, i requires 0 <= i < |order| => m[order[i]])
  }

  /** Each key names its own value: the shape of every name-keyed map here. */
  predicate KeyedBy<V>(m: map<string, V>, key: V -> string)
  {
    forall k | k in m :: key(m[k]) == k
  }

  /** No element occurs twice. */
  predicate Distinct<T(==)>(xs: seq<T>)
  {
    forall i, j :: 0 <= i < j < |xs| ==> xs[i] != xs[j]
  }

  /** A sequence without repetition holds each of its elements once. */
  lemma {:induction false} DistinctCounts<T>(xs: seq<T>, x: T)
    requires Distinct(xs)
    ensures multiset(xs)[x] == if x in xs then 1 else 0
    decreases |xs|
  {
    if xs != [] {
      var init := xs[..|xs| - 1];
      assert xs == init + [xs[|xs| - 1]];
      assert Distinct(init);
      DistinctCounts(init, x);
    }
  }

  /** The values of a name-keyed map, over an enumeration of its keys, do not repeat. */
  lemma ValuesDistinct<V>(m: map<string, V>, order: seq<string>, key: V -> string)
    requires Enumerates(order, m.Keys)
    requires KeyedBy(m, key)
    ensures Distinct(ValuesIn(m, order))
  {
    var xs := ValuesIn(m, order);
    forall i, j | 0 <= i < j < |xs| ensures xs[i] != xs[j] {
      assert key(xs[i]) == order[i] && key(xs[j]) == order[j];
    }
  }

  /** Over an enumeration of the keys, every value of the map is visited. */
  lemma ValuesVisited<V>(m: map<string, V>, order: seq<string>, v: V)
    requires Enumerates(order, m.Keys)
    ensures v in ValuesIn(m, order) <==> exists k :: k in m && m[k] == v
  {
    var xs := ValuesIn(m, order);
    if v in xs {
      var i :| 0 <= i < |xs| && xs[i] == v;
      assert order[i] in m;
    }
    if exists k :: k in m && m[k] == v {
      var k :| k in m && m[k] == v;
      var i :| 0 <= i < |order| && order[i] == k;
      assert xs[i] == v;
    }
  }

  /**
   * Over any iteration order, the values of a name-keyed map are each map
   * value exactly once: the same multiset for every order.
   */
  lemma ValuesInAnyOrder<V>(m: map<string, V>, order: seq<string>, other: seq<string>, key: V -> string)
    requires Enumerates(order, m.Keys) && Enumerates(other, m.Keys)
    requires KeyedBy(m, key)
    ensures multiset(ValuesIn(m, order)) == multiset(ValuesIn(m, other))
    ensures forall k | k in m :: multiset(ValuesIn(m, order))[m[k]] == 1
  {
    var xs, ys := ValuesIn(m, order), ValuesIn(m, other);
    ValuesDistinct(m, order, key);
    ValuesDistinct(m, other, key);
    forall v ensures multiset(xs)[v] == multiset(ys)[v] {
      DistinctCounts(xs, v);
      DistinctCounts(ys, v);
      ValuesVisited(m, order, v);
      ValuesVisited(m, other, v);
    }
    forall k | k in m ensures multiset(xs)[m[k]] == 1 {
      DistinctCounts(xs, m[k]);
      ValuesVisited(m, order, m[k]);
    }
  }

  /**
   * The sorted values of a name-keyed map: a permutation of the values, in
   * nondecreasing key order, the same whichever order the map was visited in.
   */
  lemma SortedValues<V>(m: map<string, V>, order: seq<string>, other: seq<string>, key: V -> string)
    requires Enumerates(order, m.Keys) && Enumerates(other, m.Keys)
    requires KeyedBy(m, key)
    ensures SortedBy(InsertionSorted(ValuesIn(m, order), key), key)
    ensures multiset(InsertionSorted(ValuesIn(m, order), key)) == multiset(ValuesIn(m, order))
    ensures forall k | k in m :: multiset(InsertionSorted(ValuesIn(m, order), key))[m[k]] == 1
    ensures InsertionSorted(ValuesIn(m, order), key) == InsertionSorted(ValuesIn(m, other), key)
  {
    var xs, ys := InsertionSorted(ValuesIn(m, order), key), InsertionSorted(ValuesIn(m, other), key);
    InsertionSortedIsSorted(ValuesIn(m, order), key);
    InsertionSortedIsSorted(ValuesIn(m, other), key);
    InsertionSortedPermutation(ValuesIn(m, order), key);
    InsertionSortedPermutation(ValuesIn(m, other), key);
    ValuesInAnyOrder(m, order, other, key);
    forall i, j | 0 <= i < |xs| && 0 <= j < |xs| && key(xs[i]) == key(xs[j]) ensures xs[i] == xs[j] {
      assert xs[i] in multiset(ValuesIn(m, order)) && xs[j] in multiset(ValuesIn(m, order));
      var p :| 0 <= p < |order| && ValuesIn(m, order)[p] == xs[i];
      var q :| 0 <= q < |order| && ValuesIn(m, order)[q] == xs[j];
    }
    SortedUnique(xs, ys, key);
  }

  // ---- help.rs ----

  /** The sort key of a discovered command. */
  function ExternalName(command: ExternalCommand): string
  {
    command.name
  }

  /** Copies a sequence into a fresh array. */
  method ToArray<T>(xs: seq<T>) returns (a: array<T>)
    ensures fresh(a) && a[..] == xs
  {
    a := new T[|xs|](i requires 0 <= i < |xs| => xs[i]);
  }

  /** `sort_internal`: the built-ins sorted by definition name. */
  method SortInternal(commands: map<string, Internal>, order: seq<string>) returns (sorted: seq<Internal>)
    requires Enumerates(order, commands.Keys)
    ensures sorted == InsertionSorted(ValuesIn(commands, order), NameOf)
  {
    var vector := ToArray(ValuesIn(commands, order));
    SortByKey(vector, NameOf);
    sorted := vector[..];
  }

  /** `sort_external`: the discovered commands sorted by name. */
  method SortExternal(commands: map<string, ExternalCommand>, order: seq<string>)
    returns (sorted: seq<ExternalCommand>)
    requires Enumerates(order, commands.Keys)
    ensures sorted == InsertionSorted(ValuesIn(commands, order), ExternalName)
  {
    var vector := ToArray(ValuesIn(commands, order));
    SortByKey(vector, ExternalName);
    sorted := vector[..];
  }

  /** One printed entry of a listing. */
  datatype Line =
    | Heading(text: string)
    | InternalEntry(definition: Definition)                       // `internal_command`: name, then its arguments
    | ExternalEntry(name: string, commands: map<string, Command>) // `external_command`: name, then its sub-commands
    | Blank

  /** The block printed for each built-in, in the given order. */
  function InternalLines(internals: seq<Internal>): (lines: seq<Line>)
    ensures |lines| == 2 * |internals|
    decreases |internals|
  {
    if internals == [] then []
    else
      var last := internals[|internals| - 1];
      InternalLines(internals[..|internals| - 1]) + [InternalEntry(DefinitionOf(last.kind)), Blank]
  }

  /** Entry `i` of the built-ins' block is the `i`-th built-in's definition, followed by a blank line. */
  lemma {:induction false} InternalLinesAt(internals: seq<Internal>, i: nat)
    requires i < |internals|
    ensures InternalLines(internals)[2 * i] == InternalEntry(DefinitionOf(internals[i].kind))
    ensures InternalLines(internals)[2 * i + 1] == Blank
    decreases |internals|
  {
    var init := internals[..|internals| - 1];
    var entry := InternalEntry(DefinitionOf(internals[|internals| - 1].kind));
    assert InternalLines(internals) == InternalLines(init) + [entry, Blank];
    if i < |init| {
      InternalLinesAt(init, i);
      assert init[i] == internals[i];
    }
  }

  /** The block printed for each discovered command, in the given order. */
  function ExternalLines(externals: seq<ExternalCommand>): (lines: seq<Line>)
    ensures |lines| == 2 * |externals|
    decreases |externals|
  {
    if externals == [] then []
    else
      var last := externals[|externals| - 1];
      ExternalLines(externals[..|externals| - 1]) + [ExternalEntry(last.name, last.commands), Blank]
  }

  /** Entry `i` of the discovered commands' block names the `i`-th command and its sub-commands. */
  lemma {:induction false} ExternalLinesAt(externals: seq<ExternalCommand>, i: nat)
    requires i < |externals|
    ensures ExternalLines(externals)[2 * i] == ExternalEntry(externals[i].name, externals[i].commands)
    ensures ExternalLines(externals)[2 * i + 1] == Blank
    decreases |externals|
  {
    var init := externals[..|externals| - 1];
    var last := externals[|externals| - 1];
    assert ExternalLines(externals) == ExternalLines(init) + [ExternalEntry(last.name, last.commands), Blank];
    if i < |init| {
      ExternalLinesAt(init, i);
      assert init[i] == externals[i];
    }
  }

  /** The full listing of two sorted sequences: the built-ins' section, then the discovered commands'. */
  function Listing(internals: seq<Internal>, externals: seq<ExternalCommand>): (lines: seq<Line>)
    ensures |lines| == 5 + 2 * |internals| + 2 * |externals|
  {
    [Blank, Heading("Internal Commands:"), Blank] + InternalLines(internals)
      + [Heading("Registered Commands:"), Blank] + ExternalLines(externals)
  }

  /** The loop of `list_all` over the sorted built-ins. */
  method PrintInternals(sorted: seq<Internal>) returns (lines: seq<Line>)
    ensures lines == InternalLines(sorted)
  {
    lines := [];
    for i := 0 to |sorted|
      invariant lines == InternalLines(sorted[..i])
    {
      assert sorted[..i + 1][..i] == sorted[..i];
      lines := lines + [InternalEntry(DefinitionOf(sorted[i].kind)), Blank];
    }
    assert sorted[..|sorted|] == sorted;
  }

  /** The loop of `list_all` over the sorted discovered commands. */
  method PrintExternals(sorted: seq<ExternalCommand>) returns (lines: seq<Line>)
    ensures lines == ExternalLines(sorted)
  {
    lines := [];
    for i := 0 to |sorted|
      invariant lines == ExternalLines(sorted[..i])
    {
      assert sorted[..i + 1][..i] == sorted[..i];
      lines := lines + [ExternalEntry(sorted[i].name, sorted[i].commands), Blank];
    }
    assert sorted[..|sorted|] == sorted;
  }

  /** `list_all`: sort both maps' values by name, then print each section entry by entry. */
  method ListAll(internals: map<string, Internal>, externals: map<string, ExternalCommand>,
                 internalOrder: seq<string>, externalOrder: seq<string>) returns (lines: seq<Line>)
    requires Enumerates(internalOrder, internals.Keys) && Enumerates(externalOrder, externals.Keys)
    ensures lines == Listing(InsertionSorted(ValuesIn(internals, internalOrder), NameOf),
                             InsertionSorted(ValuesIn(externals, externalOrder), ExternalName))
  {
    var sortedInternals := SortInternal(internals, internalOrder);
    var sortedExternals := SortExternal(externals, externalOrder);
    var internalBlock := PrintInternals(sortedInternals);
    var externalBlock := PrintExternals(sortedExternals);
    lines := [Blank, Heading("Internal Commands:"), Blank] + internalBlock
      + [Heading("Registered Commands:"), Blank] + externalBlock;
  }

  /**
   * The listing opens with the built-ins' heading between two blank lines,
   * shows built-in `i` on line `3 + 2i`, then the discovered commands'
   * heading, and discovered command `j` on line `5 + 2|internals| + 2j`:
   * every built-in comes before every discovered command.
   */
  lemma ListingEntries(internals: seq<Internal>, externals: seq<ExternalCommand>, i: nat, j: nat)
    requires i < |internals| && j < |externals|
    ensures Listing(internals, externals)[1] == Heading("Internal Commands:")
    ensures Listing(internals, externals)[3 + 2 * i] == InternalEntry(DefinitionOf(internals[i].kind))
    ensures Listing(internals, externals)[3 + 2 * |internals|] == Heading("Registered Commands:")
    ensures Listing(internals, externals)[5 + 2 * |internals| + 2 * j]
      == ExternalEntry(externals[j].name, externals[j].commands)
  {
    var head, middle := [Blank, Heading("Internal Commands:"), Blank], [Heading("Registered Commands:"), Blank];
    var a, b := InternalLines(internals), ExternalLines(externals);
    InternalLinesAt(internals, i);
    ExternalLinesAt(externals, j);
    BlocksAt(head, a, middle, b, 2 * i, 2 * j);
  }

  /** Indexing into four concatenated blocks: positions of the second, third and fourth block. */
  lemma BlocksAt<T>(head: seq<T>, a: seq<T>, middle: seq<T>, b: seq<T>, i: nat, j: nat)
    requires i < |a| && j < |b| && middle != []
    ensures (head + a + middle + b)[|head| + i] == a[i]
    ensures (head + a + middle + b)[|head| + |a|] == middle[0]
    ensures (head + a + middle + b)[|head| + |a| + |middle| + j] == b[j]
  {
  }

  /** A sorted arrangement of a map's values has one entry per key. */
  lemma SortedValuesSize<V>(m: map<string, V>, order: seq<string>, key: V -> string)
    requires Enumerates(order, m.Keys)
    ensures |InsertionSorted(ValuesIn(m, order), key)| == |m|
  {
    InsertionSortedPermutation(ValuesIn(m, order), key);
    assert |InsertionSorted(ValuesIn(m, order), key)| == |multiset(InsertionSorted(ValuesIn(m, order), key))|;
    EnumerationSize(order, m.Keys);
  }

  /** For name-keyed maps, the listing is the same whichever order the maps were visited in. */
  lemma ListingIgnoresOrder(internals: map<string, Internal>, externals: map<string, ExternalCommand>,
                            internalOrder: seq<string>, externalOrder: seq<string>,
                            otherInternalOrder: seq<string>, otherExternalOrder: seq<string>)
    requires Enumerates(internalOrder, internals.Keys) && Enumerates(externalOrder, externals.Keys)
    requires Enumerates(otherInternalOrder, internals.Keys) && Enumerates(otherExternalOrder, externals.Keys)
    requires KeyedBy(internals, NameOf) && KeyedBy(externals, ExternalName)
    ensures Listing(InsertionSorted(ValuesIn(internals, internalOrder), NameOf),
                    InsertionSorted(ValuesIn(externals, externalOrder), ExternalName))
         == Listing(InsertionSorted(ValuesIn(internals, otherInternalOrder), NameOf),
                    InsertionSorted(ValuesIn(externals, otherExternalOrder), ExternalName))
  {
    SortedValues(internals, internalOrder, otherInternalOrder, NameOf);
    SortedValues(externals, externalOrder, otherExternalOrder, ExternalName);
  }
}
