/**
 * The script side of the command bridge: it receives the candidate files as
 * one comma-separated `--paths` value, imports each file and collects every
 * exported command declaration, stamped with the file it came from.
 * Importing a file is an input here: `exportsOf(path)` is the file's
 * exports in key-enumeration order.
 */
module CommandParser {
  import opened Strings
  import opened Types

  /** What argument parsing yields for the `--paths` option. */
  datatype PathsOption = Given(value: string) | Absent | ParseFailed

  /** The option's value; "" when it is absent (its default) or parsing throws. */
  function PathsValue(option: PathsOption): string
  {
    match option
    case Given(value) => value
    case Absent => ""
    case ParseFailed => ""
  }

  /** `.filter(Boolean)` on strings: the non-empty ones, in their order. */
  function NonEmpty(parts: seq<string>): (r: seq<string>)
    ensures forall i :: 0 <= i < |r| ==> r[i] != ""
    ensures forall p :: p in r <==> p in parts && p != ""
    ensures (forall i :: 0 <= i < |parts| ==> parts[i] != "") ==> r == parts
  {
    if parts == [] then []
    else if parts[0] == "" then NonEmpty(parts[1..])
    else [parts[0]] + NonEmpty(parts[1..])
  }

  /** Filtering keeps order and multiplicity: it distributes over concatenation. */
  lemma {:induction false} NonEmptyAppend(a: seq<string>, b: seq<string>)
    ensures NonEmpty(a + b) == NonEmpty(a) + NonEmpty(b)
    decreases |a|
  {
    if a != [] {
      assert (a + b)[1..] == a[1..] + b;
      NonEmptyAppend(a[1..], b);
    } else {
      assert a + b == b;
    }
  }

  /** `value.split(",").filter(Boolean)` */
  function SplitPaths(value: string): (paths: seq<string>)
    ensures forall i :: 0 <= i < |paths| ==> paths[i] != "" && ',' !in paths[i]
  {
    var pieces := Split(value, ',');
    var paths := NonEmpty(pieces);
    assert forall i :: 0 <= i < |paths| ==> paths[i] in pieces;
    paths
  }

  /** The fields a command declaration carries; `owner` is "" when omitted. */
  datatype Declared = Declared(
    name: string,
    description: string,
    owner: string,
    commands: map<string, Command>)

  /** An export of a declaration file: a command-class instance, or anything else. */
  datatype Export = Instance(declared: Declared) | OtherValue

  /** `{...declared, location: path}` */
  function Stamp(declared: Declared, path: string): ExternalCommand
  {
    ExternalCommand(declared.name, path, declared.description, declared.owner, declared.commands)
  }

  /** The records collected from one file's exports, in export order. */
  function InstancesOf(exports: seq<Export>, path: string): (r: seq<ExternalCommand>)
    ensures forall i :: 0 <= i < |r| ==> r[i].location == path
    ensures forall c :: c in r <==> exists j :: 0 <= j < |exports| && exports[j].Instance? && c == Stamp(exports[j].declared, path)
    decreases |exports|
  {
    if exports == [] then []
    else
      var init := exports[..|exports| - 1];
      var last := exports[|exports| - 1];
      assert forall j :: 0 <= j < |init| ==> init[j] == exports[j];
      InstancesOf(init, path) + (if last.Instance? then [Stamp(last.declared, path)] else [])
  }

  /** The records collected from the files, file by file in the given order. */
  function Collected(paths: seq<string>, exportsOf: string -> seq<Export>): (r: seq<ExternalCommand>)
    ensures forall i :: 0 <= i < |r| ==> r[i].location in paths
    decreases |paths|
  {
    if paths == [] then []
    else
      var init := paths[..|paths| - 1];
      var last := paths[|paths| - 1];
      assert forall p :: p in init ==> p in paths;
      Collected(init, exportsOf) + InstancesOf(exportsOf(last), last)
  }

  /** One more export adds its record exactly when it is a command-class instance. */
  lemma InstancesOfStep(exports: seq<Export>, j: nat, path: string)
    requires j < |exports|
    ensures InstancesOf(exports[..j + 1], path)
      == InstancesOf(exports[..j], path) + (if exports[j].Instance? then [Stamp(exports[j].declared, path)] else [])
  {
    assert exports[..j + 1][..j] == exports[..j];
  }

  /** One more path adds the records of its exports. */
  lemma CollectedStep(paths: seq<string>, i: nat, exportsOf: string -> seq<Export>)
    requires i < |paths|
    ensures Collected(paths[..i + 1], exportsOf) == Collected(paths[..i], exportsOf) + InstancesOf(exportsOf(paths[i]), paths[i])
  {
    assert paths[..i + 1][..i] == paths[..i];
  }

  /** `CommandParser.parse`: the records that are printed as JSON. */
  method Parse(option: PathsOption, exportsOf: string -> seq<Export>) returns (commands: seq<ExternalCommand>)
    ensures commands == Collected(SplitPaths(PathsValue(option)), exportsOf)
  {
    var paths := SplitPaths(PathsValue(option));
    commands := [];
    for i := 0 to |paths|
      invariant commands == Collected(paths[..i], exportsOf)
    {
      var path := paths[i];
      var declaredExports := exportsOf(path);
      CollectedStep(paths, i, exportsOf);
      assert declaredExports[..0] == [];
      for j := 0 to |declaredExports|
        invariant commands == Collected(paths[..i], exportsOf) + InstancesOf(declaredExports[..j], path)
      {
        InstancesOfStep(declaredExports, j, path);
        if declaredExports[j].Instance? {
          commands := commands + [Stamp(declaredExports[j].declared, path)];
        }
      }
      assert declaredExports[..|declaredExports|] == declaredExports;
    }
    assert paths[..|paths|] == paths;
  }

  /** Files are processed in the given order: collecting distributes over concatenation. */
  lemma {:induction false} CollectedAppend(ps: seq<string>, qs: seq<string>, exportsOf: string -> seq<Export>)
    ensures Collected(ps + qs, exportsOf) == Collected(ps, exportsOf) + Collected(qs, exportsOf)
    decreases |qs|
  {
    if qs != [] {
      var init := qs[..|qs| - 1];
      var last := qs[|qs| - 1];
      CollectedAppend(ps, init, exportsOf);
      assert (ps + qs)[..|ps + qs| - 1] == ps + init;
      assert (ps + qs)[|ps + qs| - 1] == last;
      calc {
        Collected(ps + qs, exportsOf);
        Collected(ps + init, exportsOf) + InstancesOf(exportsOf(last), last);
        Collected(ps, exportsOf) + Collected(init, exportsOf) + InstancesOf(exportsOf(last), last);
        Collected(ps, exportsOf) + Collected(qs, exportsOf);
      }
    } else {
      assert ps + qs == ps;
    }
  }

  /** Without a usable `--paths` value nothing is imported and nothing is printed. */
  lemma NoPathsNoCommands(option: PathsOption, exportsOf: string -> seq<Export>)
    requires !option.Given?
    ensures Collected(SplitPaths(PathsValue(option)), exportsOf) == []
  {
    assert Split("", ',') == [""];
  }

  /**
   * Joining with "," on the sending side and splitting on the receiving side
   * gives back the path list, provided no path is empty or contains a comma.
   */
  lemma JoinedPathsRoundTrip(paths: seq<string>)
    requires forall i :: 0 <= i < |paths| ==> paths[i] != "" && ',' !in paths[i]
    ensures SplitPaths(Join(paths, ",")) == paths
  {
    if paths == [] {
      assert Split("", ',') == [""];
    } else {
      SplitJoin(paths, ',');
    }
  }
}
