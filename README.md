# app_settings in Dafny

A model of `app_settings`, a layered YAML settings loader for Python
applications. `AppSettings` keeps one root mapping and fills it in four
stages while it is constructed:

1. it resolves the active environment from a selector variable (`APP_ENV` by
   default, upper-cased), falling back to `development`;
2. it merges the parsed base files `*.yml` of the configuration directory in
   sorted order, then the files `settings/<env>*.yml` in sorted order, each by
   a shallow top-level update;
3. unless `use_env` is off, it turns every process environment variable whose
   name starts with the upper-cased prefix (`SETTINGS`) into a key path
   (prefix removed, leading splitter characters stripped, lower-cased, split
   on the splitter `__`) and writes the variable's raw string at that path,
   creating missing intermediate mappings;
4. it serves attribute lookups: a present key gives its value, a missing one
   raises `KeyError` or, with `raise_error` off, gives `None`.

A metaclass registry hands out one shared instance until it is reset.

The files:

- `wrappers.dfy` holds `Option`, `Result` and `Outcome`.
- `strings.dfy` models the Python `str` operations the loader uses: `upper`,
  `lower`, `startswith`, `replace(p, '')`, `lstrip`, `split`, `join`, and
  the ordering `sorted` uses.
- `values.dfy` holds parsed YAML values, truthiness and descent along a key
  path.
- `files.dfy` models the directory contents, the two `glob` patterns and
  sorting by name.
- `config.dfy` is the loader as functions over values. `Build` composes the
  stages, and the lemmas state the merge, override and lookup properties.
- `settings.dfy` holds the classes. `AppSettings` has a `config` field and
  methods with the loops over files and variables; they are proved against
  the functions of `config.dfy`. `Registry` is the get-or-create slot.
- `scenarios.dfy` works through concrete runs from the repository's tests.

Inputs the code reads from the process become parameters:

- the environment is a sequence of `EnvVar(name, value)` in iteration order;
- the two directories are a `FileSystem` of files, each with its name and
  its already parsed document;
- the keyword arguments of construction are an `Options` value.

`exit(1)` becomes the error `NoConfigFiles`. Exceptions raised during
construction become an `InitError`, and lookup exceptions become a
`LookupError`.

Points about the code's behaviour that are easy to miss:

- The extension match of `glob` is case-sensitive.
- Only the prefix is upper-cased, so a variable name is matched against it
  case-sensitively.
- File merging is always a shallow top-level update.
- A missing environment-specific file is never fatal.
- Lookups take a single key. Only the top-level lookup obeys `raise_error`;
  a missing key inside a returned nested mapping always raises `KeyError`.
- `replace` removes every occurrence of the prefix, not just the leading one.
  `Scenarios.InnerPrefixPath` shows what this does to a name that contains
  the prefix twice.

## Model

| member | source | states |
|---|---|---|
| `Strings.Upper` | app_settings/app_settings.py:49 | `upper()` keeps the length and maps each character to its capital form: every lower-case letter becomes its capital, no lower-case letter is left, and every other character stays |
| `Strings.Lower` | app_settings/app_settings.py:100 | `lower()` keeps the length, maps each character by its lower-case form, leaves no capital and changes no other character |
| `Strings.LowerAppend` | app_settings/app_settings.py:100 | lower-casing distributes over concatenation |
| `Strings.UpperKeepsUpper` | app_settings/app_settings.py:57 | a name without lower-case letters is unchanged by `upper()` |
| `Strings.RemoveAll` | app_settings/app_settings.py:98 | `replace(p, '')` never lengthens the string and leaves it unchanged for an empty `p` |
| `Strings.RemoveAllIsSplitJoin` | app_settings/app_settings.py:98 | `replace(p, '')` equals splitting on `p` and joining with nothing |
| `Strings.RemoveAllAbsent` | app_settings/app_settings.py:98 | when `p` occurs nowhere, `replace(p, '')` changes nothing |
| `Strings.RemoveAllSkips` | app_settings/app_settings.py:98 | a stretch without `p`'s first character stays in front of the rest's replacement |
| `Strings.AbsentWhenCharMissing` | app_settings/app_settings.py:98 | a pattern with a character the string lacks occurs nowhere in it |
| `Strings.LStrip` | app_settings/app_settings.py:99 | `lstrip(chars)` returns a suffix, every stripped character is in the set, and the result does not start with one |
| `Strings.LStripStops` | app_settings/app_settings.py:99 | stripping stops at a first character outside the set |
| `Strings.LStripLeading` | app_settings/app_settings.py:99 | a leading run of set characters is exactly what is stripped |
| `Strings.Split` | app_settings/app_settings.py:101 | `split(sep)` always yields at least one piece |
| `Strings.JoinSplit` | app_settings/app_settings.py:101 | joining the pieces of `split(sep)` with `sep` gives the string back |
| `Strings.SplitKeepsLowerCase` | app_settings/app_settings.py:100-101 | the pieces of a string without capitals have no capitals |
| `Strings.SplitAbsent` | app_settings/app_settings.py:101 | a string without `sep` is a single piece |
| `Strings.SplitFirst` | app_settings/app_settings.py:101 | the first piece ends at the first occurrence of `sep` |
| `Strings.LessEqTotal` | app_settings/app_settings.py:64 | the string order `sorted` uses relates any two names |
| `Strings.LessEqTransitive` | app_settings/app_settings.py:73 | that order is transitive |
| `Files.Matches` | app_settings/app_settings.py:61 | a name `glob` reports ends in `.yml`, starts with the environment value for `<env>*.yml`, and is hidden only when that value is |
| `Files.AnyYmlMatches` | app_settings/app_settings.py:61 | every name of the form stem plus `.yml` is reported for `*.yml` unless it is hidden |
| `Files.EnvYmlMatches` | app_settings/app_settings.py:70 | every name of the form environment value, any run, `.yml` is reported for `<env>*.yml` unless it is hidden and the value is not |
| `Files.Glob` | app_settings/app_settings.py:61 | `glob` reports exactly the directory's files whose names match the pattern, each at most as often as it is there |
| `Files.Insert` | app_settings/app_settings.py:73 | inserting into a sorted list keeps it sorted and adds exactly that file |
| `Files.SortByName` | app_settings/app_settings.py:64 | `sorted` returns a permutation of the files in ascending name order |
| `Values.Truthy` | app_settings/app_settings.py:89 | a document is truthy exactly when it is not one of `None`, `False`, `0`, `''`, `[]`, `{}` |
| `Config.IndexOfVar` | app_settings/app_settings.py:50 | the index found is the first variable with that name, or the end when none has it |
| `Config.EnvLookup` | app_settings/app_settings.py:50 | `environ[name]` is missing exactly when no variable has that name, and otherwise is the value of a variable with that name |
| `Config.EnvLookupUnique` | app_settings/app_settings.py:50 | in an environment that holds each name once, the lookup yields exactly that variable's value |
| `Config.ResolveEnv` | app_settings/app_settings.py:48-52 | the selector name is upper-cased; the environment is the first such variable's value, or the default when none is set |
| `Config.LoadDocument` | app_settings/app_settings.py:84-90 | a falsy document changes nothing; a mapping adds its keys, each with the document's value, replacing nested mappings wholesale, and keeps every other key; any other truthy document fails |
| `Config.LoadAll` | app_settings/app_settings.py:64-65 | loading documents in turn only adds top-level keys, and a failure names a document in the list that is truthy but not a mapping |
| `Config.LoadAllAppend` | app_settings/app_settings.py:63-74 | loading `a + b` is loading `a` and then `b` on its result, and a failure stops the rest |
| `Config.LoadAllUntouched` | app_settings/app_settings.py:84-90 | a top-level key no loaded document defines keeps its value or its absence |
| `Config.LoadAllLastWins` | app_settings/app_settings.py:61-76 | on a shared top-level key the last document defining it decides the value |
| `Config.KeyPath` | app_settings/app_settings.py:97-101 | deriving a key path fails, with the split error, exactly when the splitter is empty, and otherwise gives at least one segment |
| `Config.KeyPathShape` | app_settings/app_settings.py:97-101 | a key path is non-empty, has no capitals, and joined with the splitter gives the lower-cased remainder of the name |
| `Config.Reversed` | app_settings/app_settings.py:102 | `reverse()` keeps the length and puts element `i` at `n - 1 - i` |
| `Config.ReversedSplit` | app_settings/app_settings.py:118 | `pop()` on the reversed path yields the first segment and leaves the reversed rest |
| `Config.SetConfigValue` | app_settings/app_settings.py:115-122 | a write adds the outermost key and keeps every other top-level entry; a one-segment path stores the string; an existing non-mapping entry under the outermost key of a longer path fails |
| `Config.SetSucceedsIff` | app_settings/app_settings.py:115-122 | writing a path succeeds exactly when every entry it passes through is a mapping or missing |
| `Config.SetWritesLeaf` | app_settings/app_settings.py:115-122 | after a write, descending along the path yields exactly the raw string |
| `Config.SetFrame` | app_settings/app_settings.py:118-122 | a write leaves the value at every path that parts ways with it unchanged |
| `Config.SetCreatesIntermediates` | app_settings/app_settings.py:120 | a missing intermediate becomes a mapping holding only the next segment |
| `Config.Override` | app_settings/app_settings.py:95-103 | one variable fails only on an empty splitter (exactly then) or on a non-mapping entry along its path; otherwise its path leads to its raw string |
| `Config.ApplyOverrides` | app_settings/app_settings.py:92-103 | the loop over the environment fails only with one of the two errors an override can raise |
| `Config.ApplyOverridesAppend` | app_settings/app_settings.py:94-103 | overriding with `a + b` is overriding with `a` and then `b`, and a failure stops the rest |
| `Config.OverridesIgnoreOthers` | app_settings/app_settings.py:94 | variables without the prefix change nothing |
| `Config.OverridesFrame` | app_settings/app_settings.py:94-103 | overrides whose paths part ways with `q` leave the value at `q` alone |
| `Config.OverrideWins` | app_settings/app_settings.py:92-103 | a variable's path holds its raw string when every later override parts ways with it |
| `Config.NoBaseFilesIsFatal` | app_settings/app_settings.py:61-68 | construction fails with the missing-files error exactly when there is no base `*.yml` file |
| `Config.LoadAllNeverMissFiles` | app_settings/app_settings.py:84-90 | loading documents never reports missing files |
| `Config.OverridesNeverMissFiles` | app_settings/app_settings.py:92-103 | overrides never report missing files |
| `Config.LoadStages` | app_settings/app_settings.py:61-79 | no base file is the missing-files error; otherwise a failure is a bad document, or an override error only when overrides are enabled |
| `Config.Build` | app_settings/app_settings.py:45-79 | a built store holds the resolved selector and environment and the upper-cased prefix; with base files present a failure is a bad document, or an override error only under `use_env` |
| `Config.BuildStages` | app_settings/app_settings.py:45-79 | a built store holds the resolved environment, the upper-cased prefix, the splitter and policy, and the files in load order, with overrides on top only when `use_env` is set |
| `Config.FileValueWins` | app_settings/app_settings.py:61-79 | a top-level key holds the value from the last file in load order that defines it, unless an override writes under it |
| `Config.EnvVariableWins` | app_settings/app_settings.py:78-79 | overrides have the last word over every file at their path |
| `Config.CustomGetAttr` | app_settings/app_settings.py:26-31 | a present key yields its value (a nested mapping re-wrapped with the same entries); a missing one is a KeyError |
| `Config.GetChain` | app_settings/app_settings.py:26-31 | chained attribute access fails only on a name it was asked for: a missing first key is a KeyError, and descending past a non-mapping fails on a later name |
| `Config.GetChainFindsPath` | app_settings/app_settings.py:26-31 | chained attribute access succeeds exactly when descent along the path finds a value, and yields that value |
| `Settings.AppSettings.constructor` | app_settings/app_settings.py:45-59 | an empty root, the resolved environment, the upper-cased prefix, the splitter and policy as given |
| `Settings.AppSettings.CurrentEnv` | app_settings/app_settings.py:124-127 | `current_env` is the environment value kept from construction, which `New` states is the resolved one |
| `Settings.AppSettings.LoadConfig` | app_settings/app_settings.py:84-90 | the root after one file is the shallow update `LoadDocument` describes, or unchanged with its error |
| `Settings.AppSettings.LoadFiles` | app_settings/app_settings.py:64-65 | the loop over sorted files leaves the root `LoadAll` describes, or stops with its error |
| `Settings.AppSettings.RedefineVariables` | app_settings/app_settings.py:92-103 | the loop over the environment leaves the root `ApplyOverrides` describes, or stops with its error |
| `Settings.AppSettings.GetAttr` | app_settings/app_settings.py:105-113 | a present key yields its value; a missing one is a KeyError under `raise_error`, `None` otherwise |
| `Settings.AppSettings.LoadBaseFiles` | app_settings/app_settings.py:61-68 | the sorted base files are loaded into the empty root; none at all is the missing-files error |
| `Settings.AppSettings.LoadEnvironmentFiles` | app_settings/app_settings.py:70-76 | the sorted `<env>*.yml` files are loaded on top; none is no change |
| `Settings.AppSettings.Load` | app_settings/app_settings.py:61-79 | the three loading stages in order, stopping at the first error |
| `Settings.AppSettings.New` | app_settings/app_settings.py:45-79 | construction succeeds exactly when `Build` does, the fresh store holds `Build`'s state and `current_env` is the resolved environment; otherwise it fails with `Build`'s error |
| `Settings.Registry.constructor` | app_settings/app_settings.py:35 | the slot starts empty |
| `Settings.Registry.GetOrCreate` | app_settings/app_settings.py:37-40 | a cached store is returned unchanged whatever the arguments; otherwise a fresh store as `Build` describes is created and cached, and a failure caches nothing |
| `Settings.Registry.Reset` | tests/conftest.py:19-22 | clearing the slot |
| `Scenarios.CustomVariablePath` | tests/test_config.py:76-81 | `SETTINGS__CUSTOM__NEW__VAR` writes the path `custom` / `new` / `var` |
| `Scenarios.InnerPrefixPath` | app_settings/app_settings.py:97-101 | `SETTINGS__DB__SETTINGS_FILE` writes `db` / `_file`, since every occurrence of the prefix goes |
| `Scenarios.DefaultEnvironment` | tests/test_config.py:12 | with the selector unset the environment is `development` |
| `Scenarios.CustomSelector` | tests/test_config.py:11 | `TEST_ENV=production` as selector gives `production` |
| `Scenarios.ShallowMerge` | app_settings/app_settings.py:89-90 | a later file's nested mapping replaces an earlier one wholesale |
| `Scenarios.RegistryAcrossScenarios` | tests/conftest.py:19-22 | a second construction returns the cached store; after a reset a new store with the same contents is built |

## Left out

- YAML parsing (`yaml.load`) is a foreign library. Files carry their parsed document, and float and non-string keys are not modelled.
- Every file carries an already parsed document, so a malformed YAML file or an unreadable file cannot be represented; in the original, `open` and `load` (lines 87-88) raise out of construction.
- `glob`, `path.join`, `getcwd` and the `configs_path` default are I/O. The two directories are given as file lists.
- Glob metacharacters inside the environment value are not modelled; `<env>*.yml` is treated as prefix, any run, then `.yml`.
- Directories whose names match `*.yml` are not modelled.
- Case mapping covers ASCII letters only; Python's full Unicode `upper`/`lower` is not modelled.
- `dict.update` with a truthy non-mapping document becomes the error `BadDocument`. Python would also accept a list of key/value pairs there.
- Logging, `basicConfig` and `__repr__` (a `json.dumps` rendering) have no behaviour to verify.
- Nested dictionaries are updated in place in the original. Here the writes of `_set_config_value` are modelled on values (`SetConfigValue` returns the new mapping), so aliasing between nested dictionaries is not modelled.
- After a failing stage the partly loaded root is not stated. `New` then returns only the error, as the original raises out of `__init__`.
- Real attributes shadowing `__getattr__` are not modelled: a key named like a method of `dict`, and an attribute of a `str` or `list` reached by chained access (`cfg.key1.upper`), which Python returns as a bound method where `GetChain` reports `AttributeError`.
- Compound `__`-joined lookups and `current_env()` called as a method appear in the tests but not in this version of the code, so they are not modelled.
- The environment is a sequence of variables and may hold a name twice, which `os.environ` never does. With repeats, `EnvLookup` takes the first value while `ApplyOverrides` writes every one, so the last wins; `EnvLookupUnique` states the lookup for the unique-name case.
- The `Singleton` metaclass keys its cache by class. The model has one class and one slot.
