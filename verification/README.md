# asdf version resolution, modelled in Dafny

This project models the version-resolution engine of the asdf tool version
manager: the Go package `internal/resolve`. It has two parts.

- **`Version`** decides which versions of one tool (a plugin such as
  `nodejs`) are active for a directory.
  - An environment override `ASDF_<NAME>_VERSION` wins.
  - Otherwise the directories from the start directory up to the root are
    searched. In each one the pin file (`.tool-versions`) is tried first,
    then the plugin's legacy version files if the configuration enables them.
  - At the root ("/", or "." for a relative start directory), a root error
    is returned as it is. Otherwise, when the home directory is known, it is
    probed once and its result replaces the root's, even a version found at
    the root. When the home directory is unknown, the root's result stands.
- **`FindBestMatchingVersion`** picks an installed version when the user
  asked asdf to ignore the patch, the minor or the whole version of the
  pinned ones. The variables are `ASDF_IGNORE_PATCH`, `ASDF_IGNORE_MINOR` and
  `ASDF_IGNORE_VERSION`. Each holds a space-separated list of tool names, or
  `*`.

The outside world is passed in as values:
- the process environment is a `map<string, string>`;
- the files for which `os.Stat` succeeds are a `set<string>`;
- the answer of `os.UserHomeDir` is an `Option`;
- every collaborator is a function or a value-or-error (`Result`). These are
  the pin-file parser, the plugin's legacy callbacks, the configuration's
  legacy flag and the list of installed versions.

Files:

- `oracles.dfy` (module `Oracles`): `Option`, `Result`, `Error`, and
  `Getenv`.
- `gostrings.dfy` (module `GoStrings`): the parts of Go's `strings` package
  the code relies on:
  - `Split` and `Join` with a one-character separator;
  - `TrimSpace` with Unicode white space;
  - ASCII `ToUpper`;
  - `HasPrefix`;
  - the order of `strings.Compare`, as `Less`.
- `paths.dfy` (module `Paths`): `path.Dir` and `path.Join`, and the chain of
  ancestors that the walk visits.
- `resolve.dfy` (module `Resolve`): the resolution cascade.
  - `ParseVersion` and `FindVersionsInLegacyFile` are methods with loops.
  - `WalkUp` is the imperative loop of `Version`.
  - `Version` is proved equal to the functional specification `Resolution`.
    `WalkChain` and `ChainProbes` state the result and the probed
    directories, and lemmas state what those mean.
- `bestmatch.dfy` (module `BestMatch`): `FindBestMatchingVersion`.
  - Both slices are sorted in place, by `SortDescending`.
  - The nested scan is `ScanInstalled` with `AnyHasPrefix`.
  - The method is proved equal to `BestMatching`, a declarative specification
    that does not mention sorting: "the greatest installed version that
    decides the scan".

Behaviour that the model keeps on purpose:
- the root result is overwritten by the home probe;
- a degenerate legacy parse (`[]` or `[""]`) hides the parser's error;
- a variable holding only spaces counts as a set override with no versions;
- the `len(...) == 0` exit of `FindBestMatchingVersion` can never fire.
  `Split` always yields at least one piece, and the method carries an
  `assert false` there;
- the patch check and the minor check are two independent `if`s per
  candidate (resolve.go lines 89 and 97);
- versions are ordered and matched as plain strings, not as numbers.

Panics are outcomes, not preconditions. `FindBestMatchingVersion` returns
the outcome `Panicked` in two cases:
- it indexes an empty list of installs (line 82);
- it slices `[:2]` from the split of a version that has no dot (line 90).
The model therefore demands nothing of its callers. The specification states
exactly when each panic happens.

Two consequences of the code are easy to miss:
- **The minor check is not an `else`.** It runs for every candidate after
  the patch check, whether or not the patch policy applied.
- **An empty tool name is a special case.** With no policy variable set, the
  result is "" for every tool with a non-empty name. A tool whose name is
  `""` is instead covered by `ASDF_IGNORE_VERSION`, because an unset variable
  splits into `[""]`. See `BestMatch.EmptyToolNameTakesGreatest`.

## Model

| member | source | states |
|---|---|---|
| Oracles.Getenv | internal/resolve/resolve.go:77-79 | `os.Getenv`: "" exactly when the variable is unset or set to "", so the two cannot be told apart; any other value is the variable's own |
| GoStrings.Join | internal/resolve/resolve.go:90 | `strings.Join`: the empty list joins to "", and a joined list is at least as long as its first part |
| GoStrings.JoinEnds | internal/resolve/resolve.go:90 | a joined list starts with its first part and ends with its last, and holds the separator once there are two parts |
| GoStrings.HasPrefix | internal/resolve/resolve.go:92 | `strings.HasPrefix`: a string has a prefix only when it is at least as long |
| GoStrings.HasPrefixPointwise | internal/resolve/resolve.go:92 | the prefix holds exactly when it is no longer than the string and agrees with its start character by character; then the string is the prefix followed by the rest |
| GoStrings.Split | internal/resolve/resolve.go:77-79 | `strings.Split` never returns an empty list, so a policy list is never empty |
| GoStrings.SplitPieces | internal/resolve/resolve.go:175 | no piece holds the separator, and joining the pieces with it gives the input back |
| GoStrings.SplitJoin | internal/resolve/resolve.go:175 | splitting undoes joining when no part holds the separator |
| GoStrings.SplitCount | internal/resolve/resolve.go:90 | a string splits into two or more pieces exactly when it contains the separator, so `[:2]` fails exactly on versions without a dot |
| GoStrings.SplitWithoutSeparator | internal/resolve/resolve.go:77-79 | a value without a space is a one-name policy list |
| GoStrings.TrimSpaceSlice | internal/resolve/resolve.go:176 | `TrimSpace` returns the stretch of its input between the first and the last non-space character, and drops only white space |
| GoStrings.TrimSpaceOfBlank | internal/resolve/resolve.go:176 | a string of white space trims to "" |
| GoStrings.TrimSpaceOfTrimmed | internal/resolve/resolve.go:176 | a string with no white space at either end is unchanged |
| GoStrings.ToUpper | internal/resolve/resolve.go:185 | same length; every ASCII lower-case letter is upper-cased, every other character is kept |
| GoStrings.LessTotal | internal/resolve/resolve.go:80 | `strings.Compare` orders any two different strings one way or the other |
| GoStrings.LessTransitive | internal/resolve/resolve.go:80 | the comparison is transitive |
| GoStrings.AtLeastAntisymmetric | internal/resolve/resolve.go:80 | two strings neither of which is below the other are equal, so a sort has only one result |
| Paths.Dir | internal/resolve/resolve.go:40-43 | `path.Dir` returns its argument exactly for "." and "/"; any other step goes to a proper prefix that is followed by a slash, and lowers a height measure, so the walk terminates |
| Paths.Ancestors | internal/resolve/resolve.go:34-55 | the directories the walk visits: the start directory, then each parent in turn, ending at the first fixpoint of `Dir` |
| Paths.AncestorsAt | internal/resolve/resolve.go:40-54 | an entry of the way up is a fixpoint exactly when it is the last one; otherwise the next entry is its parent |
| Paths.Join | internal/resolve/resolve.go:110 | `path.Join` for a directory in clean form: an empty name gives the directory, in "" or "." the name alone; for a file name the result's parent is the directory and it ends with the name |
| Resolve.VariableVersionName | internal/resolve/resolve.go:184-186 | the name is "ASDF_", then the tool name upper-cased character by character, then "_VERSION" |
| Resolve.VariableVersionNameOfNodejs | internal/resolve/resolve.go:184-186 | `nodejs` gives `ASDF_NODEJS_VERSION` |
| Resolve.ParseVersion | internal/resolve/resolve.go:172-182 | the loop returns the trimmed non-empty pieces of the value split on single spaces, in order (`ParseTokens`) |
| Resolve.TokensWellFormed | internal/resolve/resolve.go:175-179 | there are no more tokens than pieces, and each token is non-empty with no white space at either end |
| Resolve.ParseTokensWellFormed | internal/resolve/resolve.go:172-182 | every parsed token is non-empty, has no white space at either end and no space inside |
| Resolve.ParseTokensOfBlank | internal/resolve/resolve.go:172-182 | a value made only of white space parses to no tokens |
| Resolve.TokensOfTrimmed | internal/resolve/resolve.go:175-179 | pieces that are already tokens are kept as they are, in order |
| Resolve.ParseJoinedTokens | internal/resolve/resolve.go:172-182 | round trip: tokens written out separated by single spaces parse back to the same tokens |
| Resolve.FindVersionsInEnv | internal/resolve/resolve.go:136-143 | uses the variable `VariableVersionName(name)`; found exactly when its value is not ""; every version returned is a well-formed token |
| Resolve.EnvBlankValueIsFound | internal/resolve/resolve.go:139-142 | a variable holding only white space is found, with no versions |
| Resolve.FirstExisting | internal/resolve/resolve.go:157-159 | the index of the first legacy candidate that exists in the directory, or none if no candidate exists |
| Resolve.LegacyLookup | internal/resolve/resolve.go:149-170 | an error from `LegacyFilenames` comes back with found = false; when no candidate exists the result is not-found with no error; a result that does not stop the walk is the zero result; a found result has no error, a usable version list, the directory, and one of the plugin's legacy file names as its source |
| Resolve.FindVersionsInLegacyFile | internal/resolve/resolve.go:149-170 | the loop over candidates returns what `LegacyLookup` specifies |
| Resolve.LegacyLaterCandidatesUnused | internal/resolve/resolve.go:157-166 | candidates after the first existing one are never consulted: replacing them changes nothing |
| Resolve.LegacyDegenerateHidesError | internal/resolve/resolve.go:160-164 | a parse yielding `[]` or `[""]` is not-found with no error, even if the parser failed |
| Resolve.LegacyFoundUnlessParseError | internal/resolve/resolve.go:160-165 | otherwise found is "the parser reported no error", the parser's error is passed on, and the source is the file name in the directory |
| Resolve.FindVersionsInDir | internal/resolve/resolve.go:109-133 | a result that does not stop the walk carries nothing; a found result names the directory; every error comes from the parser of an existing pin file, from the legacy flag or from the legacy lookup, never from a missing file |
| Resolve.PinFileShortCircuits | internal/resolve/resolve.go:112-117 | an existing pin file that reports a version or an error decides the directory, with the pin file as source, and the legacy flag and callbacks do not matter |
| Resolve.LegacyFlagDecides | internal/resolve/resolve.go:119-132 | otherwise a legacy-flag error is returned as it is, legacy files are looked at only when the flag is true, and a false flag gives not-found |
| Resolve.WalkUp | internal/resolve/resolve.go:34-55 | the loop computes `WalkChain` over the way up from the directory, and probes as many directories as `ChainProbes` lists |
| Resolve.Version | internal/resolve/resolve.go:28-58 | the result is `Resolution` (the override, else the walk), after as many `findVersionsInDir` calls as `ResolutionProbes` lists |
| Resolve.EnvOverrideWins | internal/resolve/resolve.go:29-32 | a set override returns its tokens, with the variable as source and "" as directory, and probes no directory |
| Resolve.WalkFirstStop | internal/resolve/resolve.go:34-39 | below the fixpoint, the first directory that reports a version or an error decides the result, and an error comes back with found = false |
| Resolve.WalkProbesFirstStop | internal/resolve/resolve.go:34-39 | and exactly the way up to that directory is probed, in order |
| Resolve.WalkReachesFixpoint | internal/resolve/resolve.go:43-52 | when nothing below the fixpoint stops the walk, a root error comes back with found = false; with no home directory the root's result is returned; otherwise one probe of the home directory replaces it |
| Resolve.WalkProbesReachFixpoint | internal/resolve/resolve.go:43-52 | then the whole way up is probed, followed by the home directory at most once |
| Resolve.WalkProbesShape | internal/resolve/resolve.go:34-55 | the probed directories are a prefix of the way up, or the whole way up followed by the home directory: home is probed at most once and never walked from |
| Resolve.RootPinIgnoredWhenHomeKnown | internal/resolve/resolve.go:43-52 | a version found at "/" is discarded when the home directory is known and has none; "/" and home are probed |
| BestMatch.UnsetPolicyAppliesOnlyToEmptyName | internal/resolve/resolve.go:77-81 | the list of an unset policy variable applies to a tool exactly when the tool name is "" |
| BestMatch.SortDescending | internal/resolve/resolve.go:80 | the array ends up in descending `strings.Compare` order and holds the same strings, with multiplicity |
| BestMatch.MaxIndex | internal/resolve/resolve.go:80 | returns an index of a greatest entry of the rest of the array |
| BestMatch.SortedUnique | internal/resolve/resolve.go:80 | two descending lists with the same strings are equal: the sorted order is determined by the input |
| BestMatch.MaxOf | internal/resolve/resolve.go:81-83 | the greatest string of a non-empty list is one of its entries, and no entry is greater |
| BestMatch.SortedHeadIsMax | internal/resolve/resolve.go:80-82 | the first entry of a descending list is its greatest string |
| BestMatch.Major | internal/resolve/resolve.go:98 | the major part is a prefix of the version without a dot, followed by a dot or by the end |
| BestMatch.MajorMinor | internal/resolve/resolve.go:90 | for a version with a dot: a prefix of it made of the major part, a dot and the next dot-free stretch, followed by a dot or by the end |
| BestMatch.Decisive | internal/resolve/resolve.go:88-105 | exactly the installed versions at which the scan stops: under the patch policy those without a dot or whose major.minor starts a request, under the minor policy those whose major starts a request |
| BestMatch.ScanFindsGreatestDecisive | internal/resolve/resolve.go:88-106 | over a descending list, the scan returns the greatest version at which it stops ("" if none), or panics exactly when that version has no dot under the patch policy |
| BestMatch.ScanOfSortedInstalls | internal/resolve/resolve.go:80-106 | scanning any descending permutation of the installs gives the specification's choice among them |
| BestMatch.BestMatchingIsGreatestMatch | internal/resolve/resolve.go:60-67 | when some install decides the scan, the result is such an install and none greater decides it; when none does, the result is "" |
| BestMatch.RequestOrderIrrelevant | internal/resolve/resolve.go:87-105 | reordering the requested versions does not change the result |
| BestMatch.IgnorePatchExample | internal/resolve/resolve.go:89-96 | `ASDF_IGNORE_PATCH=nodejs`, installs 14.2.1, 14.3.0 and 15.0.0, request 14.3.5: the result is 14.3.0 |
| BestMatch.PatchDecidesOnThree | internal/resolve/resolve.go:89-96 | under the patch policy alone, a version x.y.z decides the scan exactly when a request starts with x.y |
| BestMatch.MinorPrefixIsTextual | internal/resolve/resolve.go:97-104 | the minor check compares text: under `ASDF_IGNORE_MINOR=*`, install 1.2.0 matches request 10.0.0 |
| BestMatch.NoPolicyNoMatch | internal/resolve/resolve.go:77-106 | with no policy variable set, a tool with a non-empty name gets "" whatever is installed or requested |
| BestMatch.IgnoreVersionTakesGreatest | internal/resolve/resolve.go:81-83 | `ASDF_IGNORE_VERSION=*` returns the greatest install whatever was requested, and panics exactly when nothing is installed |
| BestMatch.IgnoreVersionIsLexicographic | internal/resolve/resolve.go:80-82 | the order is that of strings: with installs 10.0.0 and 9.0.0 the greatest is 9.0.0 |
| BestMatch.EmptyToolNameTakesGreatest | internal/resolve/resolve.go:79-82 | with `ASDF_IGNORE_VERSION` unset, a tool named "" still gets the greatest install (or a panic when there is none) |
| BestMatch.AnyHasPrefix | internal/resolve/resolve.go:91-95 | the inner loop answers whether some requested version starts with the prefix |
| BestMatch.ScanInstalled | internal/resolve/resolve.go:88-106 | the outer loop returns what `Scan` specifies for the installs in array order |
| BestMatch.FindBestMatchingVersion | internal/resolve/resolve.go:72-107 | the outcome is `BestMatching` of the requested versions as passed in; the caller's slice is sorted in place (same strings, descending) unless the call returns before line 87, and is otherwise unchanged |

## Left out

- Real I/O: `os.Getenv`, `os.Stat` and `os.UserHomeDir` are parameters.
  They are an environment map, a set of existing paths, and an optional home
  directory (an error of `os.UserHomeDir` is `None`). Any `os.Stat` failure
  counts as "absent", as in the source.
- Foreign code: each of these is an opaque function or a value-or-error
  given as input, and their own behaviour is not modelled:
  - `toolversions.FindToolVersions`;
  - `Plugin.LegacyFilenames` and `Plugin.ParseLegacyVersionFile`;
  - `Config.LegacyVersionFile`;
  - `installs.Installed`.
  Each is deterministic within one call of `Version`.
- `Paths.Dir` and `Paths.Join` do not model the cleaning that Go's `path.Dir`
  and `path.Join` do for `.` and `..` elements and for repeated or trailing
  slashes inside a path. `Paths.Join` does return the name alone in "" and
  ".", where every relative walk ends, and the directory alone for an empty
  name, as `path.Join` does. It can differ from `path.Join` only when the
  directory has a trailing slash (other than "/") or an inner `.`, `..` or
  `//`, or when the file name itself holds such elements. The start
  directory and the home directory are taken as given.
- `GoStrings.ToUpper` upper-cases ASCII letters only. The Unicode case
  mapping of `strings.ToUpper` is not modelled.
- Strings are sequences of code points. Go strings are UTF-8 bytes, but
  `strings.Compare` and `HasPrefix` agree on valid UTF-8, and `TrimSpace`
  removes code points.
- `Resolve.Version` and `Resolve.WalkUp` report the directories they probe
  only as a count. Which directories they are, and in what order, is stated
  by `ResolutionProbes`/`ChainProbes` and the lemmas about them.
- The distinction in Go between a nil slice and an empty slice is not
  modelled. Both are the empty sequence.
- `BestMatch.SortDescending` is a selection sort. It stands in for the
  pattern-defeating quicksort of `slices.SortFunc`, with the same
  postcondition. Which of two equal strings lands first is not observable.
