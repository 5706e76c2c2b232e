/**
 * The command-line side of the helpers: resource lists given as a
 * comma-separated string or as a list, the `resource` parameter type,
 * script file names and the choice of output format.
 */
module Params {
  import opened Wrappers
  import opened PyStrings

  /**
   * A list of references as a command receives it: either one string that
   * holds comma-separated references, or a list that is already split.
   */
  datatype RefArg = CommaSeparated(text: string) | RefList(refs: seq<string>)

  /**
   * Python truthiness of an optional argument: absent, `''` and `[]` are
   * false. A given argument yields at least one reference.
   */
  predicate Given(arg: Option<RefArg>)
    ensures Given(arg) ==> arg.Some? && |ExtractList(arg.value)| > 0
  {
    match arg
    case None => false
    case Some(CommaSeparated(text)) => text != ""
    case Some(RefList(refs)) => refs != []
  }

  /** `_extract_list`: split a string at commas, keep a list as it is. */
  function ExtractList(arg: RefArg): (refs: seq<string>)
    ensures arg.CommaSeparated? ==> |refs| >= 1 && Join(refs, ",") == arg.text
                                    && forall k | 0 <= k < |refs| :: ',' !in refs[k]
    ensures arg.RefList? ==> refs == arg.refs
  {
    match arg
    case CommaSeparated(text) => Split(text, ',')
    case RefList(refs) => refs
  }

  /**
   * A list is given exactly when it holds a reference. A string is given
   * unless it is empty, and the empty string still splits into `[""]`.
   */
  lemma GivenIsNonEmpty(arg: Option<RefArg>)
    ensures arg.Some? && arg.value.RefList? ==> (Given(arg) <==> |ExtractList(arg.value)| > 0)
    ensures arg == Some(CommaSeparated("")) ==> !Given(arg) && ExtractList(arg.value) == [""]
  {
  }

  // ---------------------------------------------------------------------
  // The `resource` parameter type

  /**
   * `ResourceParamType(nargs, metavar)`: `nargs == -1` accepts any number of
   * resources, a positive `nargs` demands exactly that many.
   */
  datatype ResourceParamType = ResourceParamType(nargs: int, metavar: string)

  /** The parameter type with the constructor's defaults. */
  const DefaultResourceParamType := ResourceParamType(-1, "TEXT")

  /** With the defaults, any number of resources is accepted and the usage carries the file hint. */
  lemma DefaultParamTypeAcceptsAnyCount(value: RefArg, fileLines: string -> seq<string>)
    ensures GetMetavar(DefaultResourceParamType) == "TEXT[,TEXT,...]* | @filename"
    ensures Convert(DefaultResourceParamType, value, fileLines).Converted?
  {
  }

  const FileSuffix := ",...]* | @filename"

  /**
   * `get_metavar`: the plain metavar, unless any number of resources is
   * accepted, when it is extended by a usage hint that mentions `@filename`.
   */
  function GetMetavar(p: ResourceParamType): (usage: string)
    ensures p.metavar <= usage
    ensures usage == p.metavar <==> p.nargs != -1
    ensures p.nargs == -1 ==> |usage| > |FileSuffix| && usage[|usage| - |FileSuffix|..] == FileSuffix
  {
    if p.nargs == -1 then p.metavar + "[," + p.metavar + FileSuffix else p.metavar
  }

  /**
   * `collect_resources` for one item: a reference that starts with `@`
   * names a file whose stripped lines are the references (`fileLines`
   * stands for reading that file); any other item is one reference.
   */
  function CollectOne(item: string, fileLines: string -> seq<string>): (refs: seq<string>)
    ensures NamesFile(item) ==> refs == fileLines(item[1..])
    ensures !NamesFile(item) ==> refs == [item]
  {
    if NamesFile(item) then fileLines(item[1..]) else [item]
  }

  /** `resource_rep.startswith('@')`. */
  predicate NamesFile(item: string)
  {
    |item| > 0 && item[0] == '@'
  }

  /** No item names a file. */
  predicate NoFileItems(items: seq<string>)
  {
    forall k | 0 <= k < |items| :: !NamesFile(items[k])
  }

  /** `reduce(collect_resources, items, [])`: the references of every item, in order. */
  function CollectResources(items: seq<string>, fileLines: string -> seq<string>): seq<string>
  {
    if |items| == 0 then []
    else CollectResources(items[..|items| - 1], fileLines) + CollectOne(items[|items| - 1], fileLines)
  }

  /** Items none of which names a file are collected unchanged. */
  lemma {:induction false} CollectWithoutFiles(items: seq<string>, fileLines: string -> seq<string>)
    requires NoFileItems(items)
    ensures CollectResources(items, fileLines) == items
    decreases |items|
  {
    if |items| > 0 {
      var init := items[..|items| - 1];
      assert forall k | 0 <= k < |init| :: init[k] == items[k];
      CollectWithoutFiles(init, fileLines);
      assert items == init + [items[|items| - 1]];
    }
  }

  /** A reference is collected exactly when some item contributes it. */
  lemma {:induction false} CollectedReferences(items: seq<string>, fileLines: string -> seq<string>, x: string)
    ensures x in CollectResources(items, fileLines) <==>
              exists k | 0 <= k < |items| :: x in CollectOne(items[k], fileLines)
    decreases |items|
  {
    if |items| > 0 {
      var init := items[..|items| - 1];
      CollectedReferences(init, fileLines, x);
      if exists k | 0 <= k < |init| :: x in CollectOne(init[k], fileLines) {
        var k :| 0 <= k < |init| && x in CollectOne(init[k], fileLines);
        assert items[k] == init[k];
      }
      if exists k | 0 <= k < |items| :: x in CollectOne(items[k], fileLines) {
        var k :| 0 <= k < |items| && x in CollectOne(items[k], fileLines);
        if k < |init| {
          assert init[k] == items[k];
        }
      }
    }
  }

  /** Collecting one more item appends what that item contributes. */
  lemma CollectSnoc(items: seq<string>, item: string, fileLines: string -> seq<string>)
    ensures CollectResources(items + [item], fileLines) == CollectResources(items, fileLines) + CollectOne(item, fileLines)
  {
    var all := items + [item];
    assert all[..|all| - 1] == items;
  }

  /** Collecting a concatenation collects each part. */
  lemma {:induction false} CollectAppend(a: seq<string>, b: seq<string>, fileLines: string -> seq<string>)
    ensures CollectResources(a + b, fileLines) == CollectResources(a, fileLines) + CollectResources(b, fileLines)
    decreases |b|
  {
    if |b| == 0 {
      assert a + b == a;
    } else {
      var b', last := b[..|b| - 1], b[|b| - 1];
      assert a + b == (a + b') + [last];
      assert b == b' + [last];
      CollectSnoc(a + b', last, fileLines);
      CollectSnoc(b', last, fileLines);
      CollectAppend(a, b', fileLines);
      var x, y, z := CollectResources(a, fileLines), CollectResources(b', fileLines), CollectOne(last, fileLines);
      assert (x + y) + z == x + (y + z);
    }
  }

  /** What `convert` returns, or the count mismatch it reports through `self.fail`. */
  datatype Conversion = Converted(resources: seq<string>) | WrongCount(expected: int, got: nat)

  /** `ResourceParamType.convert`. */
  function Convert(p: ResourceParamType, value: RefArg, fileLines: string -> seq<string>): (c: Conversion)
    ensures c.Converted? <==> p.nargs <= 0 || p.nargs == |CollectResources(ExtractList(value), fileLines)|
    ensures c.Converted? ==> c.resources == CollectResources(ExtractList(value), fileLines)
    ensures c.WrongCount? ==> c.expected == p.nargs && c.got == |CollectResources(ExtractList(value), fileLines)|
  {
    var resources := CollectResources(ExtractList(value), fileLines);
    if p.nargs > 0 && p.nargs != |resources| then WrongCount(p.nargs, |resources|)
    else Converted(resources)
  }

  /**
   * References that hold no comma and name no file survive being joined with
   * commas and converted back, when their number is acceptable.
   */
  lemma ConvertCommaRoundTrip(p: ResourceParamType, refs: seq<string>, fileLines: string -> seq<string>)
    requires |refs| >= 1
    requires forall k | 0 <= k < |refs| :: ',' !in refs[k]
    requires NoFileItems(refs)
    requires p.nargs <= 0 || p.nargs == |refs|
    ensures Convert(p, CommaSeparated(Join(refs, ",")), fileLines) == Converted(refs)
  {
    SplitJoin(refs, ',');
    CollectWithoutFiles(refs, fileLines);
  }

  // ---------------------------------------------------------------------
  // Script file names

  /** `path.split('/')[-1]`: the part of a path after its last `/`. */
  function LastSegment(path: string): (name: string)
    ensures '/' !in name
    ensures |name| <= |path| && path[|path| - |name|..] == name
    ensures name == path || path[|path| - |name| - 1] == '/'
  {
    var parts := Split(path, '/');
    if |parts| >= 2 then JoinLast(parts, "/"); parts[|parts| - 1]
    else parts[0]
  }

  /** `extract_script_filenames`, over the path part of each script URL. */
  function ExtractScriptFilenames(paths: seq<string>): (names: seq<string>)
    ensures |names| == |paths|
    ensures forall k | 0 <= k < |paths| :: names[k] == LastSegment(paths[k])
  {
    seq(|paths|, k requires 0 <= k < |paths| => LastSegment(paths[k]))
  }

  /** `map_script_filenames`: the file names joined with `", "`. */
  function MapScriptFilenames(paths: seq<string>): (text: string)
    ensures '/' !in text
    ensures |paths| == 0 ==> text == ""
    ensures |paths| == 1 ==> text == LastSegment(paths[0])
  {
    var names := ExtractScriptFilenames(paths);
    JoinAvoids(names, ", ", '/');
    Join(names, ", ")
  }

  /** Each further script appends `", "` and its file name to the text of the ones before it. */
  lemma MapScriptFilenamesStep(paths: seq<string>)
    requires |paths| >= 2
    ensures MapScriptFilenames(paths)
            == MapScriptFilenames(paths[..|paths| - 1]) + ", " + LastSegment(paths[|paths| - 1])
  {
    var names := ExtractScriptFilenames(paths);
    var init := ExtractScriptFilenames(paths[..|paths| - 1]);
    JoinLast(names, ", ");
    assert names[..|names| - 1] == init;
    assert names[|names| - 1] == LastSegment(paths[|paths| - 1]);
    assert MapScriptFilenames(paths) == Join(names, ", ");
    assert MapScriptFilenames(paths[..|paths| - 1]) == Join(init, ", ");
  }

  /** A script path without `/` is its own file name. */
  lemma LastSegmentOfPlainName(path: string)
    requires '/' !in path
    ensures LastSegment(path) == path
  {
    SplitNoSeparator(path, '/');
  }

  /** A file name is found after the last `/`, however many directories precede it. */
  lemma LastSegmentAfterDirectory(dir: string, name: string)
    requires '/' !in name
    ensures LastSegment(dir + "/" + name) == name
  {
    var parts := Split(dir, '/');
    var all := parts + [name];
    assert all[..|all| - 1] == parts;
    JoinLast(all, "/");
    forall k | 0 <= k < |all| ensures '/' !in all[k] {
      if k < |parts| { assert all[k] == parts[k]; }
    }
    SplitJoin(all, '/');
  }

  // ---------------------------------------------------------------------
  // Output format

  /** Python truthiness of an optional string. */
  predicate Truthy(s: Option<string>)
  {
    s.Some? && s.value != ""
  }

  /**
   * The precedence in `output_format`: the `format` keyword argument, then
   * the root command's `--format` option (`None` outside a click context),
   * then the default.
   */
  function OutputFormat(overrideFormat: Option<string>, clickFormat: Option<string>, defaultFormat: string): (format: string)
    ensures Truthy(overrideFormat) ==> format == overrideFormat.value
    ensures !Truthy(overrideFormat) && Truthy(clickFormat) ==> format == clickFormat.value
    ensures !Truthy(overrideFormat) && !Truthy(clickFormat) ==> format == defaultFormat
  {
    if Truthy(overrideFormat) then overrideFormat.value
    else if Truthy(clickFormat) then clickFormat.value
    else defaultFormat
  }

  const DefaultOutputFormat := "tabular"

  /** Without a `format` argument or option, output is tabular. */
  lemma OutputFormatFallsBackToTabular(overrideFormat: Option<string>, clickFormat: Option<string>)
    requires !Truthy(overrideFormat) && !Truthy(clickFormat)
    ensures OutputFormat(overrideFormat, clickFormat, DefaultOutputFormat) == "tabular"
  {
  }
}
