# golangconfig: settings resolution and Go toolchain discovery

golangconfig is the library that Go plugins for Sublime Text use to find the
Go toolchain and its environment. This Dafny project models its decision logic
in `all/golangconfig.py`:

- **`_get_most_specific_setting`**: the layered settings lookup. Scopes (view
  project settings, window project settings, then `golang.sublime-settings`)
  are searched twice. The first pass looks in each scope's platform sub-map
  (`osx`, `windows`, `linux`) and labels a hit `"<source> (os-specific)"`. The
  second pass looks at the plain top-level keys. A private marker string means
  "absent", which is distinct from a key that is present with a null value.
- **`setting_value`**: the lookup, with the login shell's environment as the
  fallback. Two names are then checked on disk: GOROOT must exist, and every
  `os.pathsep` segment of GOPATH must exist.
- **`executable_path`** and **`_check_executable`**: the first `dir/name+suffix`
  that exists, is a regular file and is executable. The PATH setting's
  directories are searched first, then the shell's PATH.
- **`subprocess_info`**: the executable path plus the environment map for
  `subprocess.Popen`. The map is the shell environment with each required and
  then each optional variable either set to `str(value)` or deleted when the
  value is None. Any required variable left unset raises `EnvVarError`. A
  missing executable raises `ExecutableError`, listing the directories
  searched. A binary outside GOROOT only gets a warning.

The host is one value, `Values.Host`:

- the ordered scope list;
- the current platform;
- the login shell (its id, its environment and its PATH list);
- a filesystem oracle: the sets of existing paths, regular files and
  executable files.

Setting values are `Null | Str | Other | Dict`. `Other` and `Dict` carry the
text Python's `str()` gives them, and `Other` also carries what `bool()` makes
of it.

Each operation that loops in the source is written twice:

- a specification function (`SettingValueSpec`, `ExecutablePathSpec`,
  `SubprocessInfoSpec`, `Missing`, `FirstExecutable`, `ApplyVars`, `AppendNew`,
  `MissingRequired`);
- a method with the source's loops (`SettingValue`, `ExecutablePath`,
  `SubprocessInfo`, `CollectMissing`, `FindExecutable`, `ApplyGroup`,
  `ApplyVarGroups`, `AppendShellDirs`, `CollectMissingRequired`), proved equal
  to its function.

The lemmas then state the documented behaviour about the functions.

Files:

| file | contents |
|---|---|
| `values.dfy` | the data model, the platform constants, the error records, `_require_unicode` |
| `pystr.dfy` | `str.split`/`str.join`, ASCII `lower`, the case-insensitive sort, two-argument `posixpath.join` |
| `lookup.dfy` | `_get_most_specific_setting` and the coercion in `debug_enabled` |
| `setting_value.dfy` | `setting_value` |
| `executable.dfy` | `executable_path`, `_check_executable` |
| `subprocess.dfy` | `subprocess_info` |

Three behaviours of the code that are easy to misread:

- A key present with a null value in some scope comes back as `(None, source)`,
  so a None value does not imply a None source
  (`SettingValues.FallbackOnlyWhenAbsent`).
- For GOPATH and GOROOT, such a null is not treated like an absent setting.
  `str(None)` turns it into the path `"None"`, which is then checked on disk
  (`SettingValues.NullGoPathIsChecked`).
- `ExecutableError.dirs` keeps the PATH setting's segments as they are,
  repeats included. Only the shell directories are skipped when already
  listed.

## Model

| member | source | states |
|---|---|---|
| Values.Stringify | all/golangconfig.py:334-335 | Python's `str()` of a setting value: the string itself, "None" for null, the given rendering otherwise (definition) |
| Values.Truthy | all/golangconfig.py:94 | Python's `bool()` of a setting value: null false, a string true when non-empty, a mapping true when non-empty, the given truth value otherwise (definition; used by Lookup.DebugEnabled and Subprocess.SettingsPathDirsAsWritten) |
| Values.RequireString | all/golangconfig.py:574-575 | a parameter passes exactly when it is a string, yielding that string; otherwise TypeError naming the parameter |
| PyStr.Split | all/golangconfig.py:343 | splitting yields at least one piece and no piece contains the separator |
| PyStr.JoinSplit | all/golangconfig.py:343 | joining the pieces with the separator gives back the original string |
| PyStr.SplitJoin | all/golangconfig.py:169 | splitting a join of separator-free pieces gives back the pieces |
| PyStr.SplitNoSeparator | all/golangconfig.py:343 | a string without the separator splits into itself alone |
| PyStr.SplitPrefix | all/golangconfig.py:343 | splitting `a + sep + b` is `a` followed by the pieces of `b` |
| PyStr.Join | all/golangconfig.py:178 | `sep.join(parts)` (definition; its meaning is stated by PyStr.JoinSplit and PyStr.SplitJoin) |
| PyStr.SplitConcat | all/golangconfig.py:343 | splitting at one separator splits the two sides independently and concatenates the results |
| PyStr.NatToString | all/golangconfig.py:366 | the `%s` rendering of a count (definition; its meaning is stated by PyStr.NatToStringValue) |
| PyStr.NatToStringValue | all/golangconfig.py:366 | the rendering is a decimal numeral without leading zero whose value is the count |
| PyStr.PathJoin | all/golangconfig.py:433 | two-argument `os.path.join` (definition; its meaning is stated by PyStr.PathJoinComponents) |
| PyStr.PathJoinComponents | all/golangconfig.py:433 | an absolute second part or an empty first part gives the second part; otherwise the components of the first part (less the empty one a trailing separator leaves) followed by those of the second |
| PyStr.Lower | all/golangconfig.py:218 | the key has the same length and lower-cases each character |
| PyStr.Insert | all/golangconfig.py:218 | inserting into a sorted list keeps it sorted and adds exactly one occurrence of the element |
| PyStr.SortByLower | all/golangconfig.py:218 | the result is a permutation of the input, ordered by the lower-cased key |
| Lookup.PlatformPass | all/golangconfig.py:542-549 | the first loop of `_get_most_specific_setting` (definition; its meaning is stated by Lookup.PlatformPassFindsFirst) |
| Lookup.PlainPass | all/golangconfig.py:551-554 | the second loop of `_get_most_specific_setting` (definition; its meaning is stated by Lookup.PlainPassFindsFirst) |
| Lookup.Present | all/golangconfig.py:548 | `m.get(name, NO_VALUE) != NO_VALUE`: the key is there and does not hold the marker (definition) |
| Lookup.PlatformHit | all/golangconfig.py:543-548 | a scope's platform entry is a mapping and holds the name; a non-mapping entry never hits (definition; its meaning is stated by Lookup.NonDictPlatformIgnored) |
| Lookup.MostSpecific | all/golangconfig.py:536-556 | `_get_most_specific_setting` over the ordered scope list (definition; its meaning is stated by Lookup.LookupOrder) |
| Lookup.PlatformPassFindsFirst | all/golangconfig.py:542-549 | the platform pass is absent exactly when no scope's platform mapping holds the name; otherwise it returns the first such scope's value labelled os-specific |
| Lookup.PlainPassFindsFirst | all/golangconfig.py:551-554 | the plain pass is absent exactly when no scope holds the name; otherwise it returns the first holding scope's value and label |
| Lookup.LookupOrder | all/golangconfig.py:542-556 | the first platform hit wins; only with no platform hit anywhere does the first plain hit win; the result is absent exactly when neither pass hits |
| Lookup.OsSpecificBeatsPlain | all/golangconfig.py:542-554 | an os-specific entry in a lower-priority scope beats a plain entry in a higher-priority scope |
| Lookup.NonDictPlatformIgnored | all/golangconfig.py:543-547 | a platform entry that is not a mapping is skipped: for any setting name other than the platform key, the lookup equals the lookup with that entry removed |
| Lookup.DebugEnabled | all/golangconfig.py:93-94 | the debug flag is false when unset, false for "0", and otherwise exactly the value's truthiness (null false, "" false, a mapping true when non-empty) |
| SettingValues.Missing | all/golangconfig.py:345-349 | the GOPATH segments not on disk, in order (definition; its meaning is stated by SettingValues.MissingMembers and SettingValues.MissingConcat) |
| SettingValues.BaseSetting | all/golangconfig.py:313-322 | the lookup with the shell environment as fallback (definition; its meaning is stated by SettingValues.FallbackOnlyWhenAbsent) |
| SettingValues.Validate | all/golangconfig.py:324-371 | the disk check for GOROOT and GOPATH (definition; its meaning is stated by SettingValues.GoRootValidated and SettingValues.GoPathValidated) |
| SettingValues.GoRootMessage | all/golangconfig.py:355 | the GoRootNotFoundError text naming the directory (definition) |
| SettingValues.GoPathMessage | all/golangconfig.py:360-368 | the GoPathNotFoundError text: the single value, the one missing entry of several, or the count and quoted list of missing entries (definition; its choice is stated by SettingValues.GoPathValidated) |
| SettingValues.MissingMembers | all/golangconfig.py:345-349 | the reported GOPATH entries are exactly the segments that do not exist |
| SettingValues.MissingConcat | all/golangconfig.py:347-349 | the missing-entry filter keeps the segments' order (it distributes over concatenation) |
| SettingValues.CollectMissing | all/golangconfig.py:345-349 | the collecting loop computes exactly the ordered list of missing segments |
| SettingValues.SettingValueSpec | all/golangconfig.py:310 | a non-string setting name raises TypeError("setting_name") before any lookup |
| SettingValues.SettingValue | all/golangconfig.py:310-371 | the step-by-step procedure returns exactly the specified result, and TypeError for a non-string name |
| SettingValues.FallbackOnlyWhenAbsent | all/golangconfig.py:313-328 | a found value (null included) is returned with its source and blocks the shell fallback; only an absent name reads the shell environment; names other than GOPATH/GOROOT are not validated |
| SettingValues.NotFoundAnywhere | all/golangconfig.py:313-328 | a name found nowhere resolves to (None, None), GOPATH and GOROOT included |
| SettingValues.GoRootValidated | all/golangconfig.py:334-358 | the stringified GOROOT is returned with its source when it exists; otherwise GoRootNotFoundError carries that string |
| SettingValues.GoPathSegments | all/golangconfig.py:343 | the stringified GOPATH split on the path separator (definition) |
| SettingValues.GoPathValidated | all/golangconfig.py:341-371 | GOPATH succeeds, with the unsplit string, exactly when every segment exists; otherwise the error lists exactly the missing segments in order, with the message chosen by the number of segments and of missing entries |
| SettingValues.NullGoPathIsChecked | all/golangconfig.py:327-352 | a GOPATH found as null is checked on disk as the path "None" |
| Executables.CheckExecutable | all/golangconfig.py:665-668 | `_check_executable`: the path exists, is a regular file and is executable (definition) |
| Executables.Candidate | all/golangconfig.py:433 | the directory joined with the executable name (definition; its components are stated by PyStr.PathJoinComponents) |
| Executables.FirstExecutable | all/golangconfig.py:432-435 | the first directory whose candidate passes the check (definition; its meaning is stated by Executables.FirstExecutableIsFirst) |
| Executables.SettingsSearchDirs | all/golangconfig.py:426-432 | only a string PATH setting is split into search directories (definition) |
| Executables.FirstExecutableIsFirst | all/golangconfig.py:432-435 | the directory search returns the candidate of the first directory that passes the check, and nothing exactly when none passes |
| Executables.FindExecutable | all/golangconfig.py:432-435 | the early-return loop computes the first passing candidate |
| Executables.ExecutablePathSpec | all/golangconfig.py:419 | a non-string executable name raises TypeError("executable_name") |
| Executables.ExecutablePath | all/golangconfig.py:419-463 | the step-by-step procedure returns exactly the specified result, and TypeError for a non-string name |
| Executables.SearchOrder | all/golangconfig.py:422-463 | the PATH setting's directories are tried first with the setting's source; the shell's directories only if none passes, with the shell id; otherwise (None, None); a non-string PATH setting contributes no directory |
| Executables.ExecutablePathCorrect | all/golangconfig.py:422-463 | a returned path passes the exists/file/executable check and is the candidate of a searched directory; nothing is returned exactly when no candidate passes |
| Executables.SettingsHitReturned | all/golangconfig.py:425-435 | an executable in the first passing settings directory is returned with that exact path and the setting's source, whatever the shell PATH holds |
| Executables.FirstFromIndex | all/golangconfig.py:432-435 | the search returns the candidate of the first passing index |
| Executables.ShellOnlyExample | all/golangconfig.py:447-451 | with no settings and shell PATH /bin:/usr/bin, an executable /usr/bin/go is found with the shell as source |
| Subprocess.StepVar | all/golangconfig.py:197-210 | one variable of the loop: set to `str(value)`, or deleted for None (definition) |
| Subprocess.ApplyVars | all/golangconfig.py:195-210 | the variables processed in order, stopping at the first error (definition; its meaning is stated by Subprocess.ApplyVarsEffect, Subprocess.ApplyVarsFrame and Subprocess.ApplyVarsFailsAtFirst) |
| Subprocess.MissingRequired | all/golangconfig.py:212-215 | the required names absent from the final map, in order (definition; its meaning is stated by Subprocess.MissingRequiredMembers) |
| Subprocess.EnvVarMessage | all/golangconfig.py:219-224 | the EnvVarError text, "is" or "s are" by count, with the names joined by ", " (definition) |
| Subprocess.AppendNew | all/golangconfig.py:170-173 | the shell directories not yet listed, appended in order (definition; its meaning is stated by Subprocess.AppendNewProperties) |
| Subprocess.ExecutableMessage | all/golangconfig.py:174-179 | the ExecutableError text naming the executable and the quoted directories (definition) |
| Subprocess.VarGroups | all/golangconfig.py:189-191 | the required names, then the optional ones when there are any (definition; its meaning is stated by Subprocess.VarGroupsOrder) |
| Subprocess.SettingsPathDirs | all/golangconfig.py:167-169 | the corrected settings directories of ExecutableError: only a non-empty string PATH is split (definition) |
| Subprocess.SettingsPathDirsAsWritten | all/golangconfig.py:166-169 | the settings directories as the code computes them: `.split` on any truthy PATH, AttributeError for a non-string (definition) |
| Subprocess.Advisory | all/golangconfig.py:229-245 | the GOROOT warning text, present when GOROOT is set and `GOROOT/bin/name` differs from the found path (definition; its meaning is stated by Subprocess.AdvisoryOnlyWarns) |
| Subprocess.IndexOf | all/golangconfig.py:171 | the position of the first occurrence of a directory in the shell PATH list |
| Subprocess.ApplyVarsConcat | all/golangconfig.py:195-196 | processing two lists of variables is processing the first, then the second from the resulting map |
| Subprocess.FlattenConcat | all/golangconfig.py:195-196 | the groups' names concatenate in group order |
| Subprocess.VarGroupsOrder | all/golangconfig.py:189-191 | the variables are processed as the required ones followed by the optional ones |
| Subprocess.ApplyVarsEffect | all/golangconfig.py:195-210 | after a successful update each named key is deleted when it resolves to None and holds `str(value)` otherwise |
| Subprocess.ApplyVarsFrame | all/golangconfig.py:195-210 | a key that no variable names keeps its inherited presence and value |
| Subprocess.ApplyVarsFailsAtFirst | all/golangconfig.py:195-197 | the update fails exactly when some variable's resolution fails, and then with the first failing variable's error |
| Subprocess.ApplyVarsFails | all/golangconfig.py:195-197 | the update fails exactly when some variable's resolution fails |
| Subprocess.ApplyVarsFirstError | all/golangconfig.py:195-197 | the update fails with the first failing variable's error |
| Subprocess.ApplyVarsErrorKinds | all/golangconfig.py:195-197 | a failed update fails with one of setting_value's own errors |
| Subprocess.MissingRequiredMembers | all/golangconfig.py:212-215 | the missing list holds exactly the required names absent from the final map |
| Subprocess.CollectMissingRequired | all/golangconfig.py:212-215 | the collecting loop computes exactly the ordered list of missing required names |
| Subprocess.SettingsPathDirsAgree | all/golangconfig.py:167-169 | on a string PATH setting the code as written and the corrected list give the same directories |
| Subprocess.NonStringPathFails | all/golangconfig.py:167-169 | for every truthy PATH setting that is not a string, the code as written fails with AttributeError while the corrected list is empty |
| Subprocess.NonStringPathCrashes | all/golangconfig.py:167-169 | a project PATH set to the number `1`, reached through the lookup, makes the code as written fail with AttributeError, while the corrected list is empty |
| Subprocess.AppendNewProperties | all/golangconfig.py:170-173 | the reported list starts with the settings directories unchanged, contains every shell directory, contains nothing else, and adds each shell directory at most once, only when not already listed, in shell PATH order |
| Subprocess.AppendShellDirs | all/golangconfig.py:170-173 | the appending loop computes exactly that list |
| Subprocess.GroupStep | all/golangconfig.py:196-210 | processing one more variable of a group is one step on the map so far |
| Subprocess.GroupStop | all/golangconfig.py:196-197 | once a variable fails, the rest of its group changes nothing |
| Subprocess.ApplyGroup | all/golangconfig.py:196-210 | the inner loop over one group continues the update exactly as the specification does, stopping at the first failure |
| Subprocess.ApplyVarGroups | all/golangconfig.py:195-210 | the nested loops compute exactly the in-order update of all groups |
| Subprocess.ApplyVarsSnoc | all/golangconfig.py:196-210 | one more variable is one more step on the map so far |
| Subprocess.ErrorStopsGroups | all/golangconfig.py:195-197 | once a group fails, later groups do not change the outcome |
| Subprocess.SubprocessInfoSpec | all/golangconfig.py:161 | a non-string executable name raises TypeError("executable_name") |
| Subprocess.SubprocessInfo | all/golangconfig.py:161-247 | the step-by-step procedure returns exactly the specified result (with the corrected settings directories of "## Findings") |
| Subprocess.SubprocessInfoOutcome | all/golangconfig.py:161-247 | the call succeeds exactly when the executable is found, every variable resolves and every required variable is then set; the GOROOT advisory plays no part; on success the path is the one found and the map is the updated shell environment |
| Subprocess.SubprocessInfoEnv | all/golangconfig.py:195-210 | on success every variable's key is set to `str(value)` or deleted for None, and every other shell key is unchanged |
| Subprocess.EnvVarErrorReport | all/golangconfig.py:212-227 | EnvVarError lists exactly the required variables absent from the updated map, as a case-insensitively sorted permutation of them, and its message picks "is"/"s are" by count |
| Subprocess.ExecutableErrorReport | all/golangconfig.py:161-183 | ExecutableError is raised exactly when no executable is found; it carries the suffixed name and the settings directories followed by each shell directory not already listed, once, in shell PATH order, and nothing else; the settings directories are the corrected ones of "## Findings" |
| Subprocess.SettingErrorKinds | all/golangconfig.py:310-371 | setting_value raises only TypeError, GoRootNotFoundError or GoPathNotFoundError |
| Subprocess.RequiredErrorsFirst | all/golangconfig.py:189-197 | once the executable is found, the first failing required variable's error is raised whatever the optional ones do |
| Subprocess.AdvisoryOnlyWarns | all/golangconfig.py:229-247 | once the executable is found, every variable resolves and every required one is set, the call succeeds with the found path and the updated map; the warning appears exactly when GOROOT is set and the literal GOROOT/bin/name differs from the found path, and names the unsuffixed name, the path and GOROOT |
| Subprocess.UnsetGoRootIsEnvVarError | all/golangconfig.py:212-227 | with GOPATH resolved and GOROOT set nowhere, requiring both raises EnvVarError naming GOROOT, not GoRootNotFoundError |

## Left out

- The main-thread checks (`all/golangconfig.py:90-91`, `513-514`): they inspect the runtime's threads and are not modelled. Every call is taken to run on the main thread.
- The Sublime host API: `sublime.load_settings`, `view.settings()`, `window.project_data()`, `active_view()`, and the view/window type checks and their TypeErrors. The ordered scope list is a parameter (`Host.scopes`).
- The byte-string encoding helpers of `shellenv` (`path_encode`, `env_encode`, `path_decode`): on Python 3 they are the identity.
- Console output: the `print` diagnostics, `_debug_unicode_string` and `_type_name`. The GOROOT advisory is returned as an optional string instead of being printed, and TypeError carries only the parameter's name, not the message text.
- `debug_enabled`'s reading of the host settings: `Lookup.DebugEnabled` takes the global settings map as a parameter.
- The filesystem and the login shell: they are the oracle sets and `Host.shell`. `shellenv.get_env` is assumed to return the same map on every call.
- `subprocess_info` updates the map `shellenv.get_env` returned in place, without copying it. The model returns the updated map as a new value, so that aliasing, and its effect on later calls, is not captured.
- `os.path.join` is modelled as the two-argument POSIX join for every platform, with the platform's directory separator. Windows drive letters and `/` as a second separator are not modelled.
- PyStr.Lower: lower-cases ASCII letters only; Python's `str.lower` also folds other Unicode letters.
- PyStr.SortByLower: proved to be a sorted permutation, but not that equal keys keep their original order, which Python's stable sort guarantees.
- SettingValues.GoPathMessage: the three message forms follow the source by construction; no lemma states them separately.
- Subprocess.SubprocessInfo: `optional_vars=None` and an empty list are one case (an empty sequence), and the variable lists are sequences rather than arbitrary iterables.
- The `str()` rendering of a mapping or list depends on insertion order and formatting. The model takes it as given text (`Other.text`, `Dict.text`) rather than computing it.

## Findings

| source | as written | input that shows it | evidently intended | confidence | as-written member | corrected member |
|---|---|---|---|---|---|---|
| all/golangconfig.py:167-169 | any truthy PATH setting has `.split` called on it | a project PATH setting of the number `1` (or a non-empty list) with the executable absent everywhere: `subprocess_info` raises AttributeError instead of ExecutableError | only a string PATH contributes directories, as `executable_path` treats it at all/golangconfig.py:427-432 | not executed | Subprocess.SettingsPathDirsAsWritten, shown by Subprocess.NonStringPathFails and, through the lookup, Subprocess.NonStringPathCrashes | Subprocess.SettingsPathDirs, used by Subprocess.SubprocessInfoSpec and proved by Subprocess.ExecutableErrorReport |
| dev/tests.py:174-190 | the `env_var_missing` case expects GoRootNotFoundError | shell environment with PATH and GOPATH, the project setting GOPATH an existing directory, `go` found, required `["GOPATH", "GOROOT"]`, GOROOT set nowhere: the code resolves GOROOT to `(None, None)` without a disk check (all/golangconfig.py:327-328) and raises EnvVarError | EnvVarError naming GOROOT, as the case's name says and as the code does | not executed | Subprocess.UnsetGoRootIsEnvVarError, which shows the code's outcome differs from the expected GoRootNotFoundError | Subprocess.SubprocessInfoSpec, unchanged, with its EnvVarError proved by Subprocess.EnvVarErrorReport |
