# Helium commander: identifier lookup and relationship updates

This project models, in Dafny, the helper logic of the Helium command-line client
(`helium/commands/util.py`):

- **Identifier lookup** (`lookup_resource_id`, `shorten_id`). A user-typed
  reference is resolved against a list of records. Each record has an id, and may
  have a name and a MAC. There are three modes:
  - exact UUID match, which stops at the first equal id;
  - case-insensitive MAC suffix;
  - exact short id, or case-insensitive name prefix.

  The lookup returns the id of the single match. When nothing matches it fails
  with "does not exist". When several records match it fails with "Ambiguous id",
  listing the short ids of the matches.
- **Relationship update** (`update_resource_relationship`). It starts from the
  ids of a relationship's current items, removes the resolved `remove`
  references, then adds the resolved `add` references. It gives `None` when
  neither list is given. A single failed lookup fails the whole update.
- **Command-line helpers**:
  - splitting comma-separated resource lists;
  - the `resource` parameter type's `convert` and `get_metavar`;
  - script file names (`extract_script_filenames`, `map_script_filenames`);
  - the precedence of output formats in `output_format`.

Modules, one per component:

- `PyStrings` (`strings.dfy`): the Python string operations used:
  - `lower()`;
  - `split` with a one-character separator;
  - `join`;
  - the slices `s[:n]` and `s[-n:]`.

  `Split` is proved to round-trip with `Join` in both directions.
- `Resolver` (`resolver.dfy`):
  - records, the three modes and the lookup outcome `Found | NotFound | Ambiguous`;
  - the specification function `Resolve`;
  - the loop `LookupResourceId`, proved equal to `Resolve`;
  - lemmas about `Resolve` and about the list of matches `MatchIds`.
- `Params` (`params.dfy`): the command-line helpers.
- `Relationship` (`relationship.dfy`):
  - the specification function `RelationshipDiff`;
  - the method `UpdateResourceRelationship`, made of sequential assignments and
    proved equal to `RelationshipDiff`;
  - lemmas about the resulting set.
- `Wrappers` (`wrappers.dfy`): `Option`.

Behaviour the model keeps exactly as the code has it:

- The "does not exist" message is `Id: <ref> does not exist`.
- Line 55 shortens every match for the ambiguity message, MAC matches
  included.
- The update returns a set, not an ordered list.
- Empty references are handled as Python handles them. In MAC mode,
  `mac[-0:]` is the whole MAC, so an empty reference matches only an empty
  MAC (`Resolver.MacMatches`). In name mode, `name[:0]` is empty, so an
  empty reference matches every named record.

## Model

| member | source | states |
|---|---|---|
| PyStrings.Lower | helium/commands/util.py:24 | `lower()` keeps the length and lowers each character on its own, by `LowerChar`: `A` to `Z` become `a` to `z`, every other character is kept |
| PyStrings.PyPrefix | helium/commands/util.py:48 | `s[:n]` is a prefix of `s`, of length `n` or the whole of a shorter `s` |
| PyStrings.PySuffix | helium/commands/util.py:36 | `s[-n:]` is the last `n` characters when `0 < n <= len(s)`, and the whole string when `n` is 0 or too large |
| PyStrings.Join | helium/commands/util.py:56 | `sep.join(parts)` is empty for no parts and starts with the first part; `JoinLast` gives how it ends, and `SplitJoin` makes it the inverse of `Split` |
| PyStrings.Split | helium/commands/util.py:63 | `split(sep)` gives at least one piece, no piece holds the separator, and joining the pieces gives the input back |
| PyStrings.SplitJoin | helium/commands/util.py:145 | splitting a comma-joined list of comma-free pieces gives the same pieces back |
| Resolver.ShortenId | helium/commands/util.py:62-63 | the short id is a prefix of the id, holds no `-`, and is either the whole id or followed by a `-` in it: the part before the first `-` |
| Resolver.ShortIds | helium/commands/util.py:55 | one short id per match, in the same order |
| Resolver.SelectMode | helium/commands/util.py:23 | exact-UUID mode is chosen exactly when `mac` is off and the reference is a UUID; MAC mode exactly when `mac` is on |
| Resolver.MacMatches | helium/commands/util.py:33-37 | for a non-empty reference, a MAC matches exactly when the lower-cased reference is a suffix of the lower-cased MAC; an empty reference matches exactly an empty MAC, since `mac[-0:]` is the whole MAC |
| Resolver.NamePrefixMatches | helium/commands/util.py:46-49 | a name matches exactly when the lower-cased reference is a prefix of the lower-cased name |
| Resolver.Matches | helium/commands/util.py:30-51 | UUID mode accepts only an equal id; a record without `meta/mac` never matches in MAC mode; an equal short id matches whatever the name, and a record without a name matches only through its short id |
| Resolver.MatchIds | helium/commands/util.py:27-51 | each record adds at most one entry to `matches`, so there are never more matches than records |
| Resolver.Resolve | helium/commands/util.py:20-59 | a failure carries the reference it was raised for; UUID mode is never ambiguous and a success there is the reference itself; an ambiguity lists at least two short ids; a returned id is the id of a record in the list |
| Resolver.LookupResourceId | helium/commands/util.py:20-59 | the loop returns exactly `Resolve`: the early return on an equal id in UUID mode, the accumulated matches otherwise, and the three outcomes by match count |
| Resolver.ErrorMessage | helium/commands/util.py:52-57 | "does not exist" is `Id: `, the reference, then ` does not exist`; an ambiguity is `Ambiguous id: `, the reference, ` (`, the short ids joined with `", "`, and `)` |
| Resolver.ErrorMessageDistinguishes | helium/commands/util.py:52-57 | the two failure texts are told apart by their first character, and a "does not exist" text determines its reference |
| Resolver.AmbiguousMessageListsMatches | helium/commands/util.py:54-57 | an ambiguous lookup's text lists, between the parentheses, the `", "`-joined short ids of all matches in scan order |
| Resolver.MacMatchIgnoresCase | helium/commands/util.py:36 | lower-casing the MAC or the reference never changes whether they match |
| Resolver.NameMatchIgnoresCase | helium/commands/util.py:48 | lower-casing the name or the reference never changes whether they match |
| Resolver.MatchIdsMembers | helium/commands/util.py:42-51 | every collected id is the id of a record that matches |
| Resolver.MatchIdsEmpty | helium/commands/util.py:28-52 | the match list is empty exactly when no record matches |
| Resolver.UuidModeIsExact | helium/commands/util.py:30-32 | in UUID mode the result is the id of the first record whose id equals the reference |
| Resolver.UuidModeWithoutExactId | helium/commands/util.py:30-53 | in UUID mode, without an equal id, the lookup fails with "does not exist", whatever short ids or names match |
| Resolver.NotFoundIffNoMatch | helium/commands/util.py:52-53 | "does not exist" is raised exactly when no record matches, in every mode |
| Resolver.UniqueMatchIsFound | helium/commands/util.py:52-59 | when exactly one record matches, its id is returned |
| Resolver.TwoMatchesAreAmbiguous | helium/commands/util.py:54-57 | two matches make the lookup ambiguous, listing the short ids of all matches in scan order, those two in their places |
| Resolver.FoundIsTheOnlyMatch | helium/commands/util.py:52-59 | a returned id belongs to a matching record, and in the scanning modes no two records match |
| Resolver.NonMatchingRecordIsIgnored | helium/commands/util.py:28-51 | inserting a record that does not match anywhere in the list leaves the outcome unchanged, so records without a name or MAC never cause an error |
| Params.ExtractList | helium/commands/util.py:162-163 | a string is split at commas into comma-free pieces that join back to it; a list is kept as it is |
| Params.Given | helium/commands/util.py:167-178 | Python truthiness of `add` and `remove`: a given argument is present and yields at least one reference |
| Params.GivenIsNonEmpty | helium/commands/util.py:167-178 | a list is given exactly when it holds a reference; the empty string is not given, although it splits into `[""]` |
| Params.GetMetavar | helium/commands/util.py:129-134 | the usage starts with the metavar. It equals the metavar exactly when `nargs != -1`. Otherwise it ends with the `@filename` hint |
| Params.DefaultParamTypeAcceptsAnyCount | helium/commands/util.py:125-134 | with the defaults `nargs=-1, metavar='TEXT'`, the usage is `TEXT[,TEXT,...]*` followed by the `@filename` hint, and every count of resources converts |
| Params.CollectOne | helium/commands/util.py:137-143 | an `@name` item contributes the lines of that file; any other item contributes itself |
| Params.CollectResources | helium/commands/util.py:137-146 | the `reduce` over the items, in order; characterised by `CollectWithoutFiles`, `CollectAppend` and `CollectedReferences` |
| Params.CollectWithoutFiles | helium/commands/util.py:137-146 | items that name no file are collected unchanged and in order |
| Params.CollectAppend | helium/commands/util.py:146 | the fold over a concatenation is the concatenation of the folds |
| Params.CollectedReferences | helium/commands/util.py:137-146 | a reference is collected exactly when some item contributes it, as a file line or as itself |
| Params.Convert | helium/commands/util.py:144-149 | the conversion succeeds exactly when `nargs <= 0` or the count matches, and the mismatch carries both numbers |
| Params.ConvertCommaRoundTrip | helium/commands/util.py:144-149 | comma-free references that name no file, joined with commas, convert back to the same list when their count is acceptable |
| Params.LastSegment | helium/commands/util.py:94 | the file name holds no `/`, is a suffix of the path, and is the whole path or preceded by a `/` |
| Params.LastSegmentOfPlainName | helium/commands/util.py:94 | a path without `/` is its own file name |
| Params.LastSegmentAfterDirectory | helium/commands/util.py:94 | `dir/name` gives `name`, whatever `dir` holds |
| Params.ExtractScriptFilenames | helium/commands/util.py:93-94 | one file name per script, in order |
| Params.MapScriptFilenames | helium/commands/util.py:88-90 | the joined names hold no `/`; no script gives the empty text and one script its own file name |
| Params.MapScriptFilenamesStep | helium/commands/util.py:88-94 | each further script appends `", "` and its file name to the text of the scripts before it, so the text is the `", "`-join of the file names in order |
| Params.OutputFormat | helium/commands/util.py:97-104 | a non-empty `format` argument wins, then a non-empty `--format` of the root command, then the default |
| Params.OutputFormatFallsBackToTabular | helium/commands/util.py:97-104 | without a truthy `format` argument or root `--format` option, the format is `tabular` |
| Relationship.CurrentIds | helium/commands/util.py:165 | the current id set holds exactly the ids of the current items |
| Relationship.ResolveAll | helium/commands/util.py:169 | all references resolve exactly when each lookup succeeds, with one id per reference in order; otherwise the first failing lookup is the failure |
| Relationship.RefsOf | helium/commands/util.py:167-174 | an argument that is absent or falsy contributes no references; a given one its extracted list, which is never empty |
| Relationship.RelationshipDiff | helium/commands/util.py:155-183 | `None` exactly when neither `add` nor `remove` is given (absent or empty); a failure is always a failed lookup |
| Relationship.UpdateResourceRelationship | helium/commands/util.py:155-183 | the step-by-step difference and union equal `RelationshipDiff` |
| Relationship.DiffMembership | helium/commands/util.py:165-176 | when every reference resolves, an id is in the result exactly when it is current and not removed, or when it is added; an id that is both removed and added is present |
| Relationship.FailureAborts | helium/commands/util.py:167-176 | one failing reference fails the whole update with one of the references' own failures; a failing removal is the one reported |
| Relationship.BoundResolver | helium/commands/util.py:155 | with `lookup_resource_id` bound to a candidate list as the resolver, every id it returns is a candidate record's id, and every failure names the reference it was raised for |
| Relationship.NewIdsComeFromCandidates | helium/commands/util.py:172-176 | with the lookup as resolver, every id in the result is a current id or the id of a candidate record |

## Left out

- `is_uuid` (lines 12-17) wraps Python's lenient `uuid.UUID` parser. The model takes it as the parameter `isUuid: string -> bool`.
- The callable form of the record list (lines 21-22) fetches records through the API client. The model takes the fetched list.
- Records are modelled as `id`, optional `name` and optional `mac` instead of nested dictionaries read with `dpath`:
  - `name` stands for the value at `name_path`, so the default path `attributes/name` is not modelled separately;
  - `dpath`'s handling of glob paths and of non-string values is not modelled.
- `.encode('utf8')` (lines 37, 44, 49, 53, 57) is a Python 2 bytes conversion and is left out.
- `lower()` is modelled on ASCII letters only. This is exact for Python 2 byte strings. Unicode strings lower-case more characters.
- `shorten_json_id`, `tabulate`, `sort_option`, `cli`/`Loader`, `main` and `ResourceParamType.__repr__` are left out. They read click's global context, render output through the writer module, or do dynamic imports, environment lookups and `sys.exit`.
- The root-context lookup inside `output_format` is left out. The model takes the `--format` value as a parameter, `None` outside a click context.
- `urlsplit` (line 94) is a library URL parser. `ExtractScriptFilenames` takes the path part of each URL. `MapScriptFilenames` takes the `meta/scripts` list directly.
- The `@filename` branch of `convert` opens a file. The model takes the file's stripped lines as the parameter `fileLines`.
- Params.Convert: the text of the mismatch message passed to `self.fail` is not modelled, only the expected and actual counts.
- `update_resource_relationship` passes keyword arguments through to `find_item_id`. The resolver parameter absorbs them.
- The relationship update returns a Python set. Any order it is listed in later is outside the model.
- `helium_commander/timeseries.py` patches a library class's display map and has no logic of its own. `tests/commands/test_user.py` is an integration test against a live API. Neither is modelled.
