# load_config, modelled in Dafny

`load_config` (config.py) takes the parsed configuration tree and does five things in order:

1. It checks that `skins` is present and truthy. If not, it prints a notice and returns `None`.
2. It walks the skin list. Every `pattern` that is a non-empty string is split on `", "` into a list of strings, in place.
3. It takes the user's `timeouts` mapping, or the default table `{per_skin: 2, per_page: 2, after_server_error: 10, after_too_many_requests: 60}` when there is none. It then visits the four table keys in order. A key whose value is missing or falsy gets its default, and a "not provided" notice is printed for it.
4. It warns when the final `per_skin` or `per_page` equals zero.
5. It writes the timeouts back under `timeouts`, prints a notice when `proxy_url` is missing or falsy, and returns the tree.

The model has five modules, one per file:

- `PyValue` (pyvalue.dfy) is the parsed tree as a tagged variant: null, bool, int, real, string, list, and mapping with string keys. It also holds Python's truthiness (`Falsy`), Python's `== 0` (`EqualsZero`) and `dict.get` (`Get`).
- `PatternSplit` (pattern_split.dfy) defines `str.split(", ")` and `", ".join` as recursive functions. It proves both round trips and that no piece holds the separator.
- `Notices` (notices.dfy) turns every `print` into an abstract event appended to a log.
- `TimeoutDefaults` (timeout_defaults.dfy) is the defaulting loop. It is stated for any table with distinct keys, given as its entries in iteration order. `FillDefaults` checks the running mapping, as the loop does. The lemmas restate each round in terms of the user's own values.
- `ConfigLoader` (config_loader.dfy) holds the default table, the pattern loop (`SplitPatterns`), the defaulting step with its zero check (`ApplyDefaults`) and `LoadConfig`.

`LoadConfig` is a method over the tree. It returns the outcome and the printed log, and is proved equal to the specification function `Load`. The lemmas of the last section state what `Load` promises.

A tree of the wrong shape makes the Python code raise. The model returns `Crashed` with the fault instead. The faults are:

- a truthy `skins` that is not a list;
- the first skin entry that is not a mapping;
- a `timeouts` entry that is present but is not a mapping, including an explicit null.

The zero-timeout warning at config.py:64-66 is dead code. The defaulting loop has already replaced every zero `per_skin` and `per_page` with a non-zero default, and a truthy value never equals zero. `ZeroWarningUnreachable`, `TimeoutLogSpec` and `NoZeroWarning` prove this, whatever the tree.

Points where the code's behaviour in config.py is easy to misread:

- An empty-string `pattern` is falsy, so the code leaves it as `""`. It does not become `[""]`.
- A `per_skin: 0` is replaced by the default `2`, and no zero warning follows.
- A truthy `skins` that is not a list of mappings, or a `timeouts` that is not a mapping, raises. It is not reported as "no skins".
- The docstring says `None` is returned when a skin's `url` is missing. The code never checks `url`, and neither does the model.

## Model

| member | source | states |
|---|---|---|
| PyValue.Falsy | config.py:58 | Python's truth test `not v`: true exactly for null, `False`, `0`, `0.0`, `""`, `[]` and `{}` (also used at lines 29, 37 and 72) |
| PyValue.EqualsZero | config.py:64 | Python's `v == 0`: true exactly for `0`, `0.0` and `False` |
| PyValue.Get | config.py:58 | `dict.get(key)`: the key's value when present, null otherwise (also used at lines 26, 36 and 72) |
| PyValue.ZeroIsFalsy | config.py:58-64 | a value that compares equal to zero (`0`, `0.0`, `False`) is falsy |
| PatternSplit.Split | config.py:38 | `str.split(", ")` always yields at least one piece |
| PatternSplit.JoinSplit | config.py:38 | joining the pieces of a split with `", "` gives back the original string |
| PatternSplit.SplitPiecesLackSep | config.py:38 | no piece of a split contains `", "` |
| PatternSplit.SplitAfterPiece | config.py:38 | a separator-free piece followed by `", "` is split off as exactly one piece |
| PatternSplit.SplitWholeIffNoSep | config.py:38 | a string splits into itself alone if and only if it holds no `", "` |
| PatternSplit.SplitJoin | config.py:38 | separator-free pieces are recovered by splitting their join |
| PatternSplit.SplitTwoNamesExample | config.py:38 | `"Ruby, Sapphire"` splits into `["Ruby", "Sapphire"]` |
| PatternSplit.SplitOneNameExample | config.py:38 | `"Solo"` splits into `["Solo"]` |
| TimeoutDefaults.DictOf | config.py:45-50 | the dict display of the first `n` table entries, each key bound to its default, a later entry overriding an earlier one |
| TimeoutDefaults.AsMapping | config.py:45-50 | the dict display of the whole table |
| TimeoutDefaults.DictOfKeys | config.py:45-50 | a dict display of table entries has exactly the entries' keys |
| TimeoutDefaults.DictOfValues | config.py:45-50 | with distinct keys, each key of the display maps to its own default |
| TimeoutDefaults.AsMappingSpec | config.py:45-50 | the default dict holds exactly the table's keys, each with its default |
| TimeoutDefaults.FillDefaults | config.py:56-59 | the mapping after the first `n` rounds of the loop: each round looks up its key in the running mapping and sets the default when the value is missing or falsy |
| TimeoutDefaults.DefaultNotices | config.py:56-60 | the "not provided" notices of the first `n` rounds, one per round whose user value was missing or falsy (equal to the running value for a table with distinct keys, by `FillStep`), carrying the key and its default |
| TimeoutDefaults.FillDefaultsKeys | config.py:56-59 | the loop adds the table keys and drops no key of the user's mapping |
| TimeoutDefaults.FillDefaultsKeepsOthers | config.py:56-59 | a key outside the table keeps the user's value, or stays absent |
| TimeoutDefaults.FillDefaultsTableKeys | config.py:56-59 | each table key is present afterwards, holding the default if the user's value was missing or falsy and the user's value otherwise |
| TimeoutDefaults.FillDefaultsSpec | config.py:56-59 | the three facts above together: key set, untouched keys, per-key default rule |
| TimeoutDefaults.DefaultNoticesMembers | config.py:56-60 | a "not provided" notice is printed for exactly the defaulted keys, each with its default |
| TimeoutDefaults.DefaultNoticesInTableOrder | config.py:56-60 | the "not provided" notices come in the table's key order |
| TimeoutDefaults.NoNoticesWhenAllTruthy | config.py:56-60 | no notice is printed when every table key already holds a truthy value |
| TimeoutDefaults.TableValuesTruthy | config.py:45-50 | with no zero default, every table key looked up in the default dict is truthy |
| TimeoutDefaults.DefaultsWhenAbsent | config.py:53-60 | run on the default dict itself, the loop changes nothing and prints nothing |
| TimeoutDefaults.FilledKeysTruthy | config.py:56-59 | after the loop every table key with a non-zero default is present and truthy |
| TimeoutDefaults.DefaultingIdempotent | config.py:56-60 | defaulting a defaulted mapping changes nothing and prints nothing |
| TimeoutDefaults.FillStep | config.py:56-60 | one round checks the running value, which still equals the user's value for that key |
| TimeoutDefaults.FillTimeouts | config.py:56-61 | the loop yields the defaulted mapping and the "not provided" notices described above |
| ConfigLoader.DefaultTimeouts | config.py:45-50 | the default table as its entries in key order: `per_skin` 2, `per_page` 2, `after_server_error` 10, `after_too_many_requests` 60 |
| ConfigLoader.DefaultTimeoutsWellFormed | config.py:45-50 | no default in the table is zero |
| ConfigLoader.DefaultKeysDistinct | config.py:45-50 | no key appears twice in the table |
| ConfigLoader.NormalizedSkin | config.py:36-38 | one skin after the loop body: a truthy string `pattern` replaced by its `", "` split, the skin unchanged otherwise |
| ConfigLoader.NormalizedSkins | config.py:34-38 | the skins list after the loop has run to its end: every entry, in order, with its pattern normalized |
| ConfigLoader.NormalizedSkinSpec | config.py:36-38 | a skin keeps its keys and every field but `pattern`; a non-empty string pattern becomes a list of at least one string, none holding `", "`, joining back to the original; any other pattern (absent, a list, falsy, not a string) is kept; a second pass changes nothing |
| ConfigLoader.FirstNonMapping | config.py:34-36 | the index where `skin.get` raises is that of a non-mapping entry with only mappings before it |
| ConfigLoader.SplitPatterns | config.py:34-38 | the loop yields every skin normalized, or stops at the first entry that is not a mapping |
| ConfigLoader.NormalizedSkinsSpec | config.py:34-38 | normalization keeps the number and order of the skins and each skin's keys, and a second pass changes nothing |
| ConfigLoader.UserTimeouts | config.py:53 | `config.get('timeouts', default_timeouts)`: the tree's `timeouts` mapping when the key is present, the default dict otherwise |
| ConfigLoader.FilledTimeouts | config.py:56-59 | the timeouts after the defaulting loop over the real table, for the user's mapping |
| ConfigLoader.TimeoutNotices | config.py:56-60 | the "not provided" notices the defaulting loop over the real table prints |
| ConfigLoader.TimeoutLog | config.py:56-66 | everything lines 56-66 print: the "not provided" notices followed by the zero warning when `ZeroWarned` holds of the filled timeouts |
| ConfigLoader.ZeroWarned | config.py:64 | the zero-warning condition: `per_skin` or `per_page` compares equal to zero |
| ConfigLoader.ProxyLog | config.py:72-74 | the proxy notice when `proxy_url` is missing or falsy, nothing otherwise |
| ConfigLoader.Load | config.py:7-76 | the whole load as a function of the tree: `None` with its notices, a crash with its fault and the notices before it, or the returned configuration with its full log |
| ConfigLoader.DefaultMapping | config.py:45-50 | the default dict is `{per_skin: 2, per_page: 2, after_server_error: 10, after_too_many_requests: 60}` |
| ConfigLoader.DefaultsWhenTimeoutsAbsent | config.py:53-60 | with no `timeouts` in the tree, the defaulted timeouts are exactly the default dict and no notice is printed |
| ConfigLoader.ZeroWarningUnreachable | config.py:56-64 | after defaulting, `per_skin` and `per_page` are present and neither equals zero |
| ConfigLoader.TimeoutLogSpec | config.py:56-66 | the defaulting step prints exactly the "not provided" notices of the defaulted keys and never the zero warning |
| ConfigLoader.PartialDefaultingExample | config.py:53-59 | `timeouts: {per_skin: 5}` becomes `{per_skin: 5, per_page: 2, after_server_error: 10, after_too_many_requests: 60}` |
| ConfigLoader.PartialDefaultingNotices | config.py:56-60 | for that input, notices are printed for `per_page`, `after_server_error` and `after_too_many_requests`, in that order |
| ConfigLoader.ApplyDefaults | config.py:56-66 | the loop followed by the zero check yields the defaulted timeouts and the defaulting log |
| ConfigLoader.LoadConfig | config.py:7-76 | the method's outcome and printed log are those of `Load` |
| ConfigLoader.LoadNoSkins | config.py:26-31 | `None` is returned if and only if `skins` is missing or falsy, and then only the loading and "no skins" notices are printed |
| ConfigLoader.LoadCrashes | config.py:26-58 | the load raises exactly on a truthy non-list `skins`, on a skin entry that is not a mapping (the first one), or on a present non-mapping `timeouts`, each after the notices printed before it |
| ConfigLoader.LoadSucceeds | config.py:26-76 | the load returns a configuration if and only if `skins` is a non-empty list of mappings and `timeouts` is absent or a mapping |
| ConfigLoader.LoadedResult | config.py:34-74 | a successful load returns the tree with normalized skins and defaulted timeouts, and prints the loading, count, defaulting and proxy notices |
| ConfigLoader.LoadedKeys | config.py:68-69 | a successful load keeps every top-level key but `skins` and `timeouts` unchanged and adds only `timeouts` |
| ConfigLoader.LoadedSkins | config.py:34-38 | a successful load keeps the number, order, keys and non-pattern fields of the skins, with each pattern normalized |
| ConfigLoader.LoadedTimeouts | config.py:53-69 | the returned `timeouts` holds exactly the user's keys plus the table keys; each table key holds the user's truthy value or else its default, and every user key outside the table keeps its value, falsy or not |
| ConfigLoader.LoadedLog | config.py:18-74 | a successful load prints the loading and count notices, one "not provided" notice per defaulted key, and the proxy notice if and only if `proxy_url` is missing or falsy |
| ConfigLoader.NoZeroWarning | config.py:63-66 | the zero-timeout warning is never printed, for any tree |
| ConfigLoader.LoadWithoutTimeouts | config.py:45-69 | without `timeouts`, the returned `timeouts` is exactly the default dict and no key is reported as defaulted |
| ConfigLoader.ReloadIsStable | config.py:34-69 | loading a configuration the loader produced returns it unchanged, with no key reported as defaulted |

## Left out

- Opening `settings/config.yaml` and `yaml.safe_load` (config.py:22-23) are file I/O and a foreign parser. `LoadConfig` takes the parsed tree as its input, and that tree is a mapping. A document that parses to something other than a mapping (such as an empty file, which gives `None`) is not modelled.
- The `time.sleep` calls (config.py:19, 42, 61, 66, 74) only pace the console output. They are left out.
- The wording of every printed message is left out. Each `print` is an abstract event in the log, and the skin count and defaulted key and value are kept as fields.
- The exception type of a crash (AttributeError, TypeError) is not distinguished. Only the fault and the notices printed before it are kept.
- YAML values beyond the variant are not modelled, for example dates, binary, sets (`!!set`), ordered maps and pairs (`!!omap`, `!!pairs`), non-string mapping keys, NaN and infinities. Floats are exact reals.
- Dict insertion order is not modelled, because mappings are unordered `map`s. The order of the defaulting loop is kept explicitly, as the table's entry order.
- In-place mutation is modelled by computing new values and writing them back. The Python loops mutate the skin dicts and the timeouts dict in place, and with no `timeouts` the default dict itself is stored under `timeouts`; the loop writes nothing into it (`DefaultsWhenAbsent`). For a tree in which no mapping is shared, both give the same returned tree.
- Trees that share a mapping through YAML anchors and aliases are not modelled. For `base: &b {per_skin: 5}` with `timeouts: *b`, the Python code also adds the defaulted keys under `base`, and a skin dict shared with another key also has its `pattern` split there. The pass-through of the other top-level keys stated by `LoadedKeys` and of the non-pattern fields stated by `LoadedSkins` holds only for trees without such sharing.
- ConfigLoader.ApplyDefaults: the zero check reads `per_skin` and `per_page` with `Get` rather than by indexing. The two agree, because `ZeroWarningUnreachable` shows both keys are always present after defaulting.
- ConfigLoader.LoadConfig: the proxy check appends `ProxyLog(config)`, the zero-or-one-notice result of the condition at config.py:72, rather than branching on it.
