/**
 * Discovery of the commands declared across the repository: the walked
 * entries are filtered by path (exclusion rules), by kind and extension, and
 * by content (the declaration marker); the surviving paths go to the
 * script-side parser, and its records are folded into a name-keyed map.
 * The directory walk is an input sequence of entries, each carrying the
 * lines a read of the file would yield.
 */
module ExternalCommands {
  import opened Wrappers
  import opened Strings
  import opened Types
  import CommandParser

  /** The text that marks a file as declaring a command. */
  const Marker := "new DevKitCommand("

  /** Prefixes, and also whole '/'-separated segments, that exclude a path. */
  const RestrictedPaths := [".", "node_modules", "target"]

  /** Suffixes that exclude a path. */
  const RestrictedExtensions := [".lock", "internal_commands/command_template.ts"]

  datatype Direction = Forwards | Backwards

  predicate Matches(path: string, token: string, direction: Direction)
  {
    match direction
    case Forwards => StartsWith(path, token)
    case Backwards => EndsWith(path, token)
  }

  /** `restrict`: some token is a prefix (Forwards) or a suffix (Backwards) of the path. */
  function Restrict(path: string, tokens: seq<string>, direction: Direction): (r: bool)
    ensures r <==> exists i :: 0 <= i < |tokens| && Matches(path, tokens[i], direction)
    decreases |tokens|
  {
    if tokens == [] then false
    else
      assert forall i :: 0 < i < |tokens| ==> tokens[i] == tokens[1..][i - 1];
      Matches(path, tokens[0], direction) || Restrict(path, tokens[1..], direction)
  }

  /** Only the set of tokens matters, not their order or repetition. */
  lemma RestrictOrderFree(path: string, tokens: seq<string>, others: seq<string>, direction: Direction)
    requires forall t :: t in tokens <==> t in others
    ensures Restrict(path, tokens, direction) == Restrict(path, others, direction)
  {
    if Restrict(path, tokens, direction) {
      var i :| 0 <= i < |tokens| && Matches(path, tokens[i], direction);
      assert tokens[i] in others;
    }
    if Restrict(path, others, direction) {
      var i :| 0 <= i < |others| && Matches(path, others[i], direction);
      assert others[i] in tokens;
    }
  }

  /** A segment that is hidden or is one of the restricted directory names. */
  predicate RestrictedSegment(segment: string)
  {
    StartsWith(segment, ".") || segment in RestrictedPaths
  }

  /** The segment loop of `black_list_dirs`: true at the first restricted segment. */
  function AnyRestrictedSegment(segments: seq<string>): (r: bool)
    ensures r <==> exists i :: 0 <= i < |segments| && RestrictedSegment(segments[i])
    decreases |segments|
  {
    if segments == [] then false
    else
      assert forall i :: 0 < i < |segments| ==> segments[i] == segments[1..][i - 1];
      RestrictedSegment(segments[0]) || AnyRestrictedSegment(segments[1..])
  }

  /** The three exclusion rules of `black_list_dirs`, applied to a path relative to the root. */
  predicate ExcludedRelative(relative: string)
  {
    || Restrict(relative, RestrictedPaths, Forwards)
    || Restrict(relative, RestrictedExtensions, Backwards)
    || AnyRestrictedSegment(Split(relative, '/'))
  }

  /**
   * `black_list_dirs` as written: the relative path is computed by removing
   * EVERY occurrence of `root + "/"`, wherever it occurs in the path.
   */
  predicate BlackListDirsAsWritten(root: string, path: string)
  {
    ExcludedRelative(RemoveAll(path, root + "/"))
  }

  /**
   * `black_list_dirs` with the relative path computed as intended: only the
   * leading `root + "/"` is removed.
   */
  predicate BlackListDirs(root: string, path: string)
  {
    ExcludedRelative(StripPrefix(path, root + "/"))
  }

  /**
   * Under the root, a path is excluded exactly when its relative part starts
   * with a restricted prefix, ends with a restricted suffix, or has a
   * restricted segment at any depth.
   */
  lemma {:induction false} BlackListDirsCharacterised(root: string, segments: seq<string>)
    requires |segments| >= 1
    requires forall i :: 0 <= i < |segments| ==> '/' !in segments[i]
    ensures var relative := Join(segments, "/");
      BlackListDirs(root, root + "/" + relative) <==>
        || (exists t :: t in RestrictedPaths && StartsWith(relative, t))
        || (exists t :: t in RestrictedExtensions && EndsWith(relative, t))
        || (exists i :: 0 <= i < |segments| && RestrictedSegment(segments[i]))
  {
    var relative := Join(segments, "/");
    assert StartsWith(root + "/" + relative, root + "/");
    assert StripPrefix(root + "/" + relative, root + "/") == relative;
    SplitJoin(segments, '/');
    assert Split(relative, '/') == segments;
    if exists t :: t in RestrictedPaths && StartsWith(relative, t) {
      var t :| t in RestrictedPaths && StartsWith(relative, t);
      var i :| 0 <= i < |RestrictedPaths| && RestrictedPaths[i] == t;
      assert Matches(relative, RestrictedPaths[i], Forwards);
    }
    if exists t :: t in RestrictedExtensions && EndsWith(relative, t) {
      var t :| t in RestrictedExtensions && EndsWith(relative, t);
      var i :| 0 <= i < |RestrictedExtensions| && RestrictedExtensions[i] == t;
      assert Matches(relative, RestrictedExtensions[i], Backwards);
    }
  }

  /** A path with a restricted segment at any depth is excluded. */
  lemma ExcludedAtAnyDepth(root: string, segments: seq<string>, i: nat)
    requires i < |segments|
    requires forall j :: 0 <= j < |segments| ==> '/' !in segments[j]
    requires RestrictedSegment(segments[i])
    ensures BlackListDirs(root, root + "/" + Join(segments, "/"))
  {
    BlackListDirsCharacterised(root, segments);
  }

  /** Where `root + "/"` occurs only at the front, both readings agree. */
  lemma AsWrittenAgrees(root: string, relative: string)
    requires !Contains(relative, root + "/")
    ensures BlackListDirsAsWritten(root, root + "/" + relative) == BlackListDirs(root, root + "/" + relative)
  {
    RemoveAllLeading(root + "/", relative);
    RemoveAllAbsent(relative, root + "/");
    assert (root + "/") + relative == root + "/" + relative;
    assert StartsWith(root + "/" + relative, root + "/");
    assert StripPrefix(root + "/" + relative, root + "/") == relative;
  }

  /**
   * A block in which the pattern cannot start, framed by two occurrences of
   * the pattern and followed by a pattern-free tail: both occurrences go.
   */
  lemma RemoveAllAroundBlock(pat: string, block: string, file: string)
    requires pat != []
    requires forall j :: 0 <= j < |block| ==> NoStartAt(block, j, pat)
    requires RemoveAll(file, pat) == file
    ensures RemoveAll(pat + block + pat + file, pat) == block + file
  {
    RemoveAllLeading(pat, file);
    RemoveAllKeepsFrom(block, 0, pat + file, file, pat);
    assert block[0..] == block;
    assert pat + block + pat + file == pat + (block + (pat + file));
    RemoveAllLeading(pat, block + (pat + file));
  }

  /** With root "/r", both occurrences of "/r/" in "/r/a/target/r/b.ts" are removed. */
  lemma RemoveAllNestedRoot()
    ensures RemoveAll("/r/a/target/r/b.ts", "/r/") == "a/targetb.ts"
  {
    var pat, block, file := "/r/", "a/target", "b.ts";
    assert RemoveAll(file, pat) == file by {
      RemoveAllKeepsFirst('b', ".ts", pat);
      RemoveAllKeepsFirst('.', "ts", pat);
    }
    forall j | 0 <= j < |block|
      ensures NoStartAt(block, j, pat)
    {
    }
    RemoveAllAroundBlock(pat, block, file);
    assert pat + block + pat + file == "/r/a/target/r/b.ts";
    assert block + file == "a/targetb.ts";
  }

  /**
   * A relative path of two segments, neither hidden nor restricted, that
   * starts and ends with letters no restricted token starts or ends with, and
   * is shorter than the template suffix, is not excluded.
   */
  lemma TwoPlainSegmentsNotExcluded(first: string, second: string)
    requires '/' !in first && '/' !in second
    requires first != [] && second != []
    requires first[0] !in ".nt" && second[0] != '.' && second[|second| - 1] != 'k'
    requires first !in RestrictedPaths && second !in RestrictedPaths
    requires |first| + 1 + |second| < |RestrictedExtensions[1]|
    ensures !ExcludedRelative(first + "/" + second)
  {
    var relative := first + "/" + second;
    assert relative == first + ['/'] + second;
    SplitTwo(first, second, '/');
    assert relative[0] == first[0] && relative[|relative| - 1] == second[|second| - 1];
    forall i | 0 <= i < |RestrictedPaths|
      ensures !StartsWith(relative, RestrictedPaths[i])
    {
      assert RestrictedPaths[i][0] in ".nt";
    }
    forall i | 0 <= i < |RestrictedExtensions|
      ensures !EndsWith(relative, RestrictedExtensions[i])
    {
      if i == 0 {
        var ext := RestrictedExtensions[0];
        assert ext[|ext| - 1] == 'k';
      }
    }
    assert !RestrictedSegment(first) by { assert first[..1] != "."; }
    assert !RestrictedSegment(second) by { assert second[..1] != "."; }
    assert ["a", "b"][1..] == ["b"];
    assert [first, second][1..] == [second];
  }

  /** The as-written relative path of the example is not excluded. */
  lemma NestedTargetNotExcluded()
    ensures !ExcludedRelative("a/targetb.ts")
  {
    var first, second := "a", "targetb.ts";
    assert |RestrictedExtensions[1]| > 12;
    assert second[0] == 't' && second[|second| - 1] == 's';
    assert first !in RestrictedPaths && second !in RestrictedPaths;
    TwoPlainSegmentsNotExcluded(first, second);
    assert first + "/" + second == "a/targetb.ts";
  }

  /** A restricted second segment excludes a path under the root, whatever follows it. */
  lemma RestrictedSecondSegment(root: string, first: string, segment: string, after: string)
    requires '/' !in first && '/' !in segment
    requires RestrictedSegment(segment)
    ensures BlackListDirs(root, root + "/" + first + "/" + segment + "/" + after)
  {
    var relative := first + "/" + segment + "/" + after;
    var path := root + "/" + first + "/" + segment + "/" + after;
    assert path == (root + "/") + relative;
    assert StartsWith(path, root + "/");
    assert StripPrefix(path, root + "/") == relative;
    SplitAfterPiece(segment, '/', after);
    assert segment + "/" + after == segment + ['/'] + after;
    SplitAfterPiece(first, '/', segment + "/" + after);
    assert relative == first + ['/'] + (segment + "/" + after);
    var segments := Split(relative, '/');
    assert segments == [first] + ([segment] + Split(after, '/'));
    assert segments[1] == segment;
  }

  /** Read as intended, the example path is excluded by its `target` segment. */
  lemma NestedTargetExcluded()
    ensures BlackListDirs("/r", "/r/a/target/r/b.ts")
  {
    var root, first, segment, after := "/r", "a", "target", "r/b.ts";
    assert segment in RestrictedPaths;
    RestrictedSecondSegment(root, first, segment, after);
    assert root + "/" + first + "/" + segment + "/" + after == "/r/a/target/r/b.ts";
  }

  /**
   * As written, a `target` directory below the root escapes exclusion when the
   * root's name reappears after it: with root "/r", the path
   * "/r/a/target/r/b.ts" becomes "a/targetb.ts", whose segments are
   * "a" and "targetb.ts". Stripping only the leading root excludes it.
   */
  lemma AsWrittenMissesNestedTarget()
    ensures !BlackListDirsAsWritten("/r", "/r/a/target/r/b.ts")
    ensures BlackListDirs("/r", "/r/a/target/r/b.ts")
  {
    RemoveAllNestedRoot();
    NestedTargetNotExcluded();
    assert "/r" + "/" == "/r/";
    NestedTargetExcluded();
  }

  // ---- content probe ----

  /** The index of the first line holding the marker: the probe reads no further. */
  function MarkerLine(lines: seq<string>): (r: Option<nat>)
    ensures r.None? <==> forall i :: 0 <= i < |lines| ==> !Contains(lines[i], Marker)
    ensures r.Some? ==> r.value < |lines| && Contains(lines[r.value], Marker)
    ensures r.Some? ==> forall i :: 0 <= i < r.value ==> !Contains(lines[i], Marker)
    decreases |lines|
  {
    if lines == [] then None
    else if Contains(lines[0], Marker) then Some(0)
    else
      assert forall i :: 0 < i < |lines| ==> lines[i] == lines[1..][i - 1];
      match MarkerLine(lines[1..])
      case None => None
      case Some(i) => Some(i + 1)
  }

  /** `read`: some line of the file contains the marker. */
  predicate Read(lines: seq<string>)
    ensures Read(lines) <==> exists i :: 0 <= i < |lines| && Contains(lines[i], Marker)
  {
    MarkerLine(lines).Some?
  }

  // ---- walked entries ----

  /** A walked entry: a path with its kind and the lines of the file, or a walk error. */
  datatype WalkEntry = Entry(path: string, isFile: bool, lines: seq<string>) | WalkError

  /** `allowed`: not an error entry, and its path is not excluded by `black_list_dirs` as written. */
  predicate Allowed(root: string, entry: WalkEntry)
  {
    entry.Entry? && !BlackListDirsAsWritten(root, entry.path)
  }

  /** `allowed` with the relative path computed as intended (the root prefix stripped once). */
  predicate AllowedCorrected(root: string, entry: WalkEntry)
  {
    entry.Entry? && !BlackListDirs(root, entry.path)
  }

  /** `path.file_name()`: the text after the last '/'. */
  function FileName(path: string): (name: string)
    ensures '/' !in name
  {
    match LastIndexOf(path, '/')
    case None => path
    case Some(i) => path[i + 1..]
  }

  /**
   * `path.extension()`: the text after the last '.' of the file name, unless
   * that dot is the name's first character or the name is "..".
   */
  function Extension(path: string): (e: Option<string>)
    ensures e.Some? ==> '.' !in e.value && '/' !in e.value
  {
    var name := FileName(path);
    if name == ".." then None
    else
      match LastIndexOf(name, '.')
      case None => None
      case Some(i) => if i == 0 then None else Some(name[i + 1..])
  }

  /** The extension is exactly "ts" iff the file name ends in ".ts" after at least one character. */
  lemma ExtensionIsTs(path: string)
    ensures Extension(path) == Some("ts") <==> EndsWith(FileName(path), ".ts") && |FileName(path)| > 3
  {
    var name := FileName(path);
    var n := |name|;
    if Extension(path) == Some("ts") {
      var i := LastIndexOf(name, '.').value;
      assert name[i + 1..] == "ts";
      assert name[n - 3..] == [name[i]] + name[i + 1..];
    }
    if EndsWith(name, ".ts") && n > 3 {
      assert name[n - 3] == '.';
      var r := LastIndexOf(name, '.');
      assert r.Some?;
      assert name[n - 3 + 1..] == "ts";
    }
  }

  /** The file name of a path is what follows its last '/'. */
  lemma FileNameAfterSlash(directory: string, name: string)
    requires '/' !in name
    ensures FileName(directory + "/" + name) == name
  {
    var path := directory + "/" + name;
    var n := |directory|;
    assert path[n] == '/';
    assert path[n + 1..] == name;
  }

  /** The file of the nested-target example has the ".ts" extension. */
  lemma NestedTargetIsTs()
    ensures Extension("/r/a/target/r/b.ts") == Some("ts")
  {
    var directory, name := "/r/a/target/r", "b.ts";
    assert directory + "/" + name == "/r/a/target/r/b.ts";
    assert '/' !in name;
    FileNameAfterSlash(directory, name);
    assert EndsWith(name, ".ts");
    ExtensionIsTs("/r/a/target/r/b.ts");
  }

  /** The keep condition of `find_all`. */
  predicate Keep(root: string, entry: WalkEntry)
  {
    Allowed(root, entry) && entry.isFile && Extension(entry.path) == Some("ts") && Read(entry.lines)
  }

  /** The keep condition with the corrected exclusion test. */
  predicate KeepCorrected(root: string, entry: WalkEntry)
  {
    AllowedCorrected(root, entry) && entry.isFile && Extension(entry.path) == Some("ts") && Read(entry.lines)
  }

  /** A kept entry is a file whose name ends in ".ts" after a non-empty stem and which holds the marker. */
  lemma KeptFilesAreMarkedTs(root: string, entry: WalkEntry)
    requires Keep(root, entry)
    ensures EndsWith(FileName(entry.path), ".ts") && |FileName(entry.path)| > 3
    ensures exists i :: 0 <= i < |entry.lines| && Contains(entry.lines[i], Marker)
  {
    ExtensionIsTs(entry.path);
  }

  /** The keep condition as a function value, for the filter below. */
  function Keeper(root: string): WalkEntry -> bool
  {
    entry => Keep(root, entry)
  }

  /** The corrected keep condition as a function value. */
  function CorrectedKeeper(root: string): WalkEntry -> bool
  {
    entry => KeepCorrected(root, entry)
  }

  /** The paths of the entries (not walk errors) that `keep` accepts, in walk order. */
  function KeptBy(entries: seq<WalkEntry>, keep: WalkEntry -> bool): (kept: seq<string>)
    ensures |kept| <= |entries|
    decreases |entries|
  {
    if entries == [] then []
    else
      var last := entries[|entries| - 1];
      KeptBy(entries[..|entries| - 1], keep) + (if last.Entry? && keep(last) then [last.path] else [])
  }

  /** A path is kept exactly when some entry with that path is accepted. */
  lemma {:induction false} KeptByMembers(entries: seq<WalkEntry>, keep: WalkEntry -> bool, p: string)
    ensures p in KeptBy(entries, keep) <==> exists i :: 0 <= i < |entries| && entries[i].Entry? && keep(entries[i]) && entries[i].path == p
    decreases |entries|
  {
    if entries != [] {
      var init := entries[..|entries| - 1];
      KeptByMembers(init, keep, p);
      if p in KeptBy(entries, keep) && p in KeptBy(init, keep) {
        var i :| 0 <= i < |init| && init[i].Entry? && keep(init[i]) && init[i].path == p;
        assert entries[i] == init[i];
      }
      if exists i :: 0 <= i < |entries| && entries[i].Entry? && keep(entries[i]) && entries[i].path == p {
        var i :| 0 <= i < |entries| && entries[i].Entry? && keep(entries[i]) && entries[i].path == p;
        if i < |init| {
          assert init[i] == entries[i];
        }
      }
    }
  }

  /** Two filters that decide every walked entry alike keep the same paths. */
  lemma {:induction false} KeptByAgree(entries: seq<WalkEntry>, keep: WalkEntry -> bool, other: WalkEntry -> bool)
    requires forall i :: 0 <= i < |entries| && entries[i].Entry? ==> keep(entries[i]) == other(entries[i])
    ensures KeptBy(entries, keep) == KeptBy(entries, other)
    decreases |entries|
  {
    if entries != [] {
      var init := entries[..|entries| - 1];
      assert forall i :: 0 <= i < |init| ==> init[i] == entries[i];
      KeptByAgree(init, keep, other);
    }
  }

  /** Filtering distributes over concatenation. */
  lemma {:induction false} KeptByAppend(walked: seq<WalkEntry>, more: seq<WalkEntry>, keep: WalkEntry -> bool)
    ensures KeptBy(walked + more, keep) == KeptBy(walked, keep) + KeptBy(more, keep)
    decreases |more|
  {
    if more == [] {
      assert walked + more == walked;
    } else {
      var init := more[..|more| - 1];
      KeptByAppend(walked, init, keep);
      assert (walked + more)[..|walked + more| - 1] == walked + init;
      assert (walked + more)[|walked + more| - 1] == more[|more| - 1];
    }
  }

  /** The paths `find_all` pushes, in walk order. */
  function KeptPaths(root: string, entries: seq<WalkEntry>): (paths: seq<string>)
    ensures |paths| <= |entries|
  {
    KeptBy(entries, Keeper(root))
  }

  /** A path is pushed exactly when some walked entry with that path is kept. */
  lemma KeptPathsMembers(root: string, entries: seq<WalkEntry>, p: string)
    ensures p in KeptPaths(root, entries) <==>
            exists i :: 0 <= i < |entries| && Keep(root, entries[i]) && entries[i].path == p
  {
    KeptByMembers(entries, Keeper(root), p);
  }

  /** One more walked entry pushes its path exactly when it is kept. */
  lemma KeptPathsStep(root: string, entries: seq<WalkEntry>, i: nat)
    requires i < |entries|
    ensures KeptPaths(root, entries[..i + 1])
      == KeptPaths(root, entries[..i]) + (if Keep(root, entries[i]) then [entries[i].path] else [])
  {
    assert entries[..i + 1][..i] == entries[..i];
  }

  /** Later entries are kept after earlier ones: keeping distributes over concatenation. */
  lemma KeptPathsAppend(root: string, walked: seq<WalkEntry>, more: seq<WalkEntry>)
    ensures KeptPaths(root, walked + more) == KeptPaths(root, walked) + KeptPaths(root, more)
  {
    KeptByAppend(walked, more, Keeper(root));
  }

  // ---- the registry ----

  /** Records inserted one by one into a map by name: a later record overwrites an earlier one. */
  function Registry(commands: seq<ExternalCommand>): (m: map<string, ExternalCommand>)
    ensures forall k :: k in m <==> exists i :: 0 <= i < |commands| && commands[i].name == k
    ensures forall k :: k in m ==> m[k].name == k && m[k] in commands
    decreases |commands|
  {
    if commands == [] then map[]
    else
      var init := commands[..|commands| - 1];
      var last := commands[|commands| - 1];
      var r := Registry(init);
      var m := r[last.name := last];
      RegistryInsert(commands, init, last, r, m);
      m
  }

  /** Inserting the last record keeps every key the name of a record that bears it. */
  lemma RegistryInsert(commands: seq<ExternalCommand>, init: seq<ExternalCommand>, last: ExternalCommand,
                       r: map<string, ExternalCommand>, m: map<string, ExternalCommand>)
    requires commands == init + [last] && m == r[last.name := last]
    requires forall k :: k in r <==> exists i :: 0 <= i < |init| && init[i].name == k
    requires forall k :: k in r ==> r[k].name == k && r[k] in init
    ensures forall k :: k in m <==> exists i :: 0 <= i < |commands| && commands[i].name == k
    ensures forall k :: k in m ==> m[k].name == k && m[k] in commands
  {
    assert commands[|init|] == last;
    forall k | k in m ensures exists i :: 0 <= i < |commands| && commands[i].name == k {
      if k == last.name {
        assert commands[|init|].name == k;
      } else {
        var i :| 0 <= i < |init| && init[i].name == k;
        assert commands[i] == init[i];
      }
    }
    forall k | exists i :: 0 <= i < |commands| && commands[i].name == k ensures k in m {
      var i :| 0 <= i < |commands| && commands[i].name == k;
      if i < |init| {
        assert init[i] == commands[i];
      }
    }
  }

  /** A name maps to the last record bearing it. */
  lemma {:induction false} RegistryLastWins(commands: seq<ExternalCommand>, i: nat)
    requires i < |commands|
    requires forall j :: i < j < |commands| ==> commands[j].name != commands[i].name
    ensures commands[i].name in Registry(commands)
    ensures Registry(commands)[commands[i].name] == commands[i]
    decreases |commands|
  {
    if i < |commands| - 1 {
      var init := commands[..|commands| - 1];
      RegistryLastWins(init, i);
    }
  }

  /** `collect_instances`: parse the kept files and insert each record by name. */
  method CollectInstances(paths: seq<string>, exportsOf: string -> seq<CommandParser.Export>)
    returns (map_: map<string, ExternalCommand>)
    ensures map_ == Registry(CommandParser.Collected(CommandParser.SplitPaths(Join(paths, ",")), exportsOf))
  {
    var commands := CommandParser.Parse(CommandParser.Given(Join(paths, ",")), exportsOf);
    map_ := InsertByName(commands);
  }

  /** The loop of `collect_instances` that inserts each parsed record under its name. */
  method InsertByName(commands: seq<ExternalCommand>) returns (map_: map<string, ExternalCommand>)
    ensures map_ == Registry(commands)
  {
    map_ := map[];
    for i := 0 to |commands|
      invariant map_ == Registry(commands[..i])
    {
      RegistryStep(commands, i);
      map_ := map_[commands[i].name := commands[i]];
    }
    assert commands[..|commands|] == commands;
  }

  /** Inserting one more record extends the registry of the records before it. */
  lemma RegistryStep(commands: seq<ExternalCommand>, i: nat)
    requires i < |commands|
    ensures Registry(commands[..i + 1]) == Registry(commands[..i])[commands[i].name := commands[i]]
  {
    assert commands[..i + 1][..i] == commands[..i];
  }

  /** What `find_all` returns for a walk of the root. */
  function Discover(root: string, entries: seq<WalkEntry>, exportsOf: string -> seq<CommandParser.Export>)
    : (discovered: map<string, ExternalCommand>)
    ensures forall k :: k in discovered ==> discovered[k].name == k
  {
    Registry(CommandParser.Collected(CommandParser.SplitPaths(Join(KeptPaths(root, entries), ",")), exportsOf))
  }

  /** What `find_all` would return with the corrected exclusion test. */
  function DiscoverCorrected(root: string, entries: seq<WalkEntry>, exportsOf: string -> seq<CommandParser.Export>)
    : map<string, ExternalCommand>
  {
    Registry(CommandParser.Collected(CommandParser.SplitPaths(Join(KeptBy(entries, CorrectedKeeper(root)), ",")), exportsOf))
  }

  /**
   * When no walked file's path repeats the root prefix after its leading
   * one, the discovery as written and the corrected one find the same
   * commands. Directories, the root among them, are never kept by either.
   */
  lemma DiscoverCorrectedAgrees(root: string, entries: seq<WalkEntry>, exportsOf: string -> seq<CommandParser.Export>)
    requires forall i :: 0 <= i < |entries| && entries[i].Entry? && entries[i].isFile ==>
      StartsWith(entries[i].path, root + "/") && !Contains(entries[i].path[|root| + 1..], root + "/")
    ensures Discover(root, entries, exportsOf) == DiscoverCorrected(root, entries, exportsOf)
  {
    forall i | 0 <= i < |entries| && entries[i].Entry?
      ensures Keeper(root)(entries[i]) == CorrectedKeeper(root)(entries[i])
    {
      if entries[i].isFile {
        var path := entries[i].path;
        var relative := path[|root| + 1..];
        assert path == root + "/" + relative by {
          assert path[..|root| + 1] == root + "/";
        }
        AsWrittenAgrees(root, relative);
      }
    }
    KeptByAgree(entries, Keeper(root), CorrectedKeeper(root));
  }

  /** Under the corrected test no walked file with a restricted segment at any depth is kept. */
  lemma KeepCorrectedExcludesAtAnyDepth(root: string, segments: seq<string>, i: nat, isFile: bool, lines: seq<string>)
    requires i < |segments|
    requires forall j :: 0 <= j < |segments| ==> '/' !in segments[j]
    requires RestrictedSegment(segments[i])
    ensures !KeepCorrected(root, Entry(root + "/" + Join(segments, "/"), isFile, lines))
  {
    ExcludedAtAnyDepth(root, segments, i);
  }

  /**
   * As written, a marked ".ts" file inside a nested `target` directory is
   * kept by `find_all`; the corrected test drops it.
   */
  lemma AsWrittenKeepsNestedTarget()
    ensures Keep("/r", Entry("/r/a/target/r/b.ts", true, [Marker]))
    ensures !KeepCorrected("/r", Entry("/r/a/target/r/b.ts", true, [Marker]))
  {
    AsWrittenMissesNestedTarget();
    NestedTargetIsTs();
    assert OccursAt(Marker, Marker, 0);
    assert MarkerLine([Marker]) == Some(0);
  }

  /** `find_all`: walk, keep, probe, then collect. */
  method FindAll(root: string, entries: seq<WalkEntry>, exportsOf: string -> seq<CommandParser.Export>)
    returns (commands: map<string, ExternalCommand>)
    ensures commands == Discover(root, entries, exportsOf)
  {
    var paths: seq<string> := [];
    for i := 0 to |entries|
      invariant paths == KeptPaths(root, entries[..i])
    {
      var entry := entries[i];
      KeptPathsStep(root, entries, i);
      if Allowed(root, entry) {
        if entry.isFile && Extension(entry.path) == Some("ts") {
          var probe := Read(entry.lines);
          if probe {
            paths := paths + [entry.path];
          }
        }
      }
    }
    assert entries[..|entries|] == entries;
    commands := CollectInstances(paths, exportsOf);
  }

  /**
   * Every discovered command is keyed by its own name and, when no kept path
   * contains a comma, was declared in a walked file that passed every
   * filter: an allowed, non-excluded ".ts" file holding the marker.
   */
  lemma {:induction false} DiscoveredFromKeptFiles(root: string, entries: seq<WalkEntry>,
                                                   exportsOf: string -> seq<CommandParser.Export>, name: string)
    requires forall i :: 0 <= i < |entries| && Keep(root, entries[i]) ==> ',' !in entries[i].path
    requires name in Discover(root, entries, exportsOf)
    ensures Discover(root, entries, exportsOf)[name].name == name
    ensures exists i :: 0 <= i < |entries| && Keep(root, entries[i])
                        && entries[i].path == Discover(root, entries, exportsOf)[name].location
  {
    var kept := KeptPaths(root, entries);
    forall j | 0 <= j < |kept| ensures kept[j] != "" && ',' !in kept[j] {
      assert kept[j] in kept;
      KeptPathsMembers(root, entries, kept[j]);
      var i :| 0 <= i < |entries| && Keep(root, entries[i]) && entries[i].path == kept[j];
      assert Extension(kept[j]).Some?;
    }
    CommandParser.JoinedPathsRoundTrip(kept);
    var command := Discover(root, entries, exportsOf)[name];
    assert command.location in kept;
    KeptPathsMembers(root, entries, command.location);
  }
}
