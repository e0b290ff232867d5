# composer-git-hooks: the `Hook` configuration core

composer-git-hooks lets a PHP project declare git hooks in its `composer.json`
manifest and installs them into `.git/hooks`. The class `Hook` decides what
gets installed:

- which hooks the manifest defines (`getValidHooks`);
- whether a key is a hook name git knows (`isValidHook`, `getHooks`);
- how a configuration section is read (`getConfig`);
- whether a hook's commands run as one `&&` chain (`isHookWithCommandsSequence`);
- what script text a hook gets (`getHookContents`).

This project models that class in Dafny and proves what it promises.

The manifest is taken as already read and decoded. It is `None` when there is
no `composer.json`. It is `Some(JNull)` when the file is not valid JSON, because
`json_decode` then yields `null`. A decoded object keeps its members exactly as
written, in document order and with repeated names. `Json.Decode` then models
what `json_decode($contents, true)` makes of them: a PHP array with string keys,
where a repeated name keeps the position of its first occurrence and the value
of its last.

Files:

- `wrappers.dfy` (`Wrappers`): `Option` and `Result`.
- `json.dfy` (`Json`): decoded JSON, and the PHP array operations the class uses
  on string keys.
  - `Find` reads `$a[$k]`.
  - `Put` is `$a[$k] = $v`.
  - `PutAll`/`Decode` is `json_decode`.
  - `ArrayMerge` is `array_merge`.
  - `Restrict` keeps the pairs whose key is in a list.
  - `Get`, `GetIn` and `LookupPath` are `isset` chains.
- `strings.dfy` (`Strings`): `implode`, and a split into lines used to state
  what a joined script looks like.
- `hook.dfy` (`Hook`): the class itself.
  - `getValidHooks` is the function `ValidHooks`, plus the method
    `GetValidHooks`, whose `foreach` is the loop of `CollectValidHooks`.
- `hook_cases.dfy` (`HookCases`): small manifests, with the stored values as
  parameters, and what the model makes of them.

Decisions:

- A PHP 8 `TypeError` becomes `Failure(NotAnArray)`. This happens when
  `array_merge` or `in_array` is handed a value that is not an array.
- Asking for the reserved section `command` becomes `Failure(InvalidConfigSection(section))`.

## Model

| member | source | states |
|---|---|---|
| Hook.Flip | src/Hook.php:98-117 | `array_flip`: a name is a key exactly when it is in the list, and it maps to its last position in the list |
| Hook.GetHooks | src/Hook.php:96-118 | the flipped allow-list has exactly the 18 names as keys, each mapped to a position holding that name |
| Hook.IsValidHook | src/Hook.php:88-91 | a key is a valid hook exactly when it is one of the 18 listed names, compared exactly |
| Hook.HookNamesDistinct | src/Hook.php:98-117 | the allow-list holds 18 names, with no name twice |
| Hook.ListedNamesAccepted | src/Hook.php:110-116 | `pre-commit` and `update` are valid hooks |
| Hook.CaseVariantsRejected | src/Hook.php:88-117 | matching is case-sensitive: `Pre-Commit` and `PRE-PUSH` are rejected |
| Hook.NearMissesRejected | src/Hook.php:88-117 | an extension (`pre-commit-msg`) or a prefix (`pre`) of a hook name is rejected |
| Hook.OtherKeysRejected | src/Hook.php:88-117 | `config`, `test` and the empty key are not hook names |
| Hook.LookupConfigPath | src/Hook.php:32-36 | the path lookup is the chain `$json['extra']['hooks']['config'][$section]`, one step per name |
| Hook.GetConfig | src/Hook.php:19-37 | fails exactly for the reserved section `command`, with that section in the error, whatever the manifest; gives `[]` without a manifest; otherwise gives the value stored at extra.hooks.config.<section>, or `[]` when nothing or null is stored there |
| Hook.GetConfigReturnsStored | src/Hook.php:32-36 | in a manifest holding only the path extra.hooks.config.<section>, any non-null value stored there comes back unchanged |
| Hook.GetConfigNullIsEmpty | src/Hook.php:32-34 | a section stored as null counts as unset and gives `[]` |
| Hook.CommandsConfig | src/Hook.php:48 | the commands section is the four-step `isset` chain extra.hooks.config.commands: unset without a manifest, never null when set |
| Hook.InArray | src/Hook.php:50 | `in_array`: for a list, membership of the hook name; for an object, whether some key holds it last; anything else is a TypeError, the only error |
| Hook.InDecodedValues | src/Hook.php:50 | a value is among the decoded array's values exactly when some member name holds it last |
| Hook.IsHookWithCommandsSequence | src/Hook.php:46-51 | without a commands section the answer is false; for a list it is membership of the hook name; for an object it is whether some key holds the hook name; any other value is a TypeError, and it is the only error |
| Hook.SourceArray | src/Hook.php:69-73 | an unset entry or a list gives the empty array; an object gives its decoded array, whose keys are distinct and hold each name's last value; any other value is a TypeError |
| HookCases.SourcesOfObjects | src/Hook.php:69-73 | when scripts, hooks and extra.hooks are objects, the merge takes their three decoded arrays |
| Hook.ManifestSources | src/Hook.php:69-73 | the merge can start exactly when scripts, hooks and extra.hooks are each unset or an array; each gives an array with distinct keys |
| Json.Find | src/Hook.php:78 | `$a[$k]`: set exactly when k is a key, and then a pair of the array |
| Json.FindLast | src/Hook.php:68 | the value of the last pair named k: set exactly when k is a key, and no later pair has that name |
| Json.Put | src/Hook.php:78 | `$a[$k] = $v`: the keys stay in place, k is appended when new, and a new key appends the pair |
| Json.PutAll | src/Hook.php:68-73 | assigning pairs one by one gives exactly the keys of the array and of the pairs |
| Json.Decode | src/Hook.php:68 | the decoded array never holds a key twice |
| Json.DecodeFind | src/Hook.php:68 | reading a key of the decoded array gives the last member of that name |
| Json.PutFind | src/Hook.php:78 | after `$a[$k] = $v`, `$a[$k]` is `v` and every other key reads as before |
| Json.PutAllKeys | src/Hook.php:68-73 | assigning pairs one by one gives the keys of both, each once, in order of first occurrence |
| Json.PutAllFind | src/Hook.php:68-73 | after assigning pairs one by one, a key reads as its last assignment, or as before when it was not assigned |
| Json.ArrayMerge | src/Hook.php:69-73 | the merged array never holds a key twice |
| Json.ArrayMergeFind | src/Hook.php:69-73 | a key of the merge reads as in the third array, else the second, else the first |
| Json.ArrayMergeKeys | src/Hook.php:69-73 | the merge's keys are the keys of the three arrays, each once, in order of first occurrence |
| Json.Dedup | src/Hook.php:69-73 | keeps each key once, and exactly the keys given |
| Json.DedupOrder | src/Hook.php:69-73 | deduplication keeps first occurrences in their original order |
| Json.Restrict | src/Hook.php:76-80 | the filter keeps exactly the pairs whose key is listed |
| Json.RestrictKeys | src/Hook.php:76-80 | a key survives the filter exactly when it was present and is listed |
| Json.RestrictFind | src/Hook.php:76-80 | the filter keeps the value of every listed key and drops every other key |
| Json.RestrictUnique | src/Hook.php:76-80 | the filter never makes a key occur twice |
| Json.RestrictOrder | src/Hook.php:76-80 | the filter keeps the remaining keys in their relative order |
| Json.Get | src/Hook.php:32 | `isset($j[$k])`: set exactly when j is an object whose last member named k is not null, and then that member's value |
| Json.GetIn | src/Hook.php:32 | one `isset` step from a value that may be unset: unset stays unset, and a set value is never null |
| Json.LookupPath | src/Hook.php:32 | an `isset` chain: the empty chain gives its start; from unset it stays unset; a set result of a non-empty chain is never null |
| Json.FindLastAt | src/Hook.php:68 | a member that no later member of the same name follows is what the name decodes to |
| Hook.ValidHooks | src/Hook.php:60-83 | `getValidHooks`: `[]` without a manifest; the only error is a TypeError; the result's keys are distinct hook names |
| Hook.ValidHooksWithoutConfiguration | src/Hook.php:62-65 | without a manifest, or with a manifest that is not valid JSON, no hook is defined |
| Hook.ValidHooksFailure | src/Hook.php:69-73 | the result is an error exactly when scripts, hooks or extra.hooks is set to something other than an array |
| Hook.ValidHooksPrecedence | src/Hook.php:60-83 | the keys of the result are distinct; a key is in it exactly when it is a hook name defined by one of the three entries; its value is, unchanged, the one from extra.hooks, else hooks, else scripts |
| Hook.ValidHooksOrder | src/Hook.php:69-80 | the hooks come in the order in which they first appear in scripts, hooks, extra.hooks |
| Hook.OnlyValidHookNames | src/Hook.php:76-80 | after the filter, every key is a hook name, each once |
| Hook.CollectStep | src/Hook.php:76-80 | one turn of the loop appends the pair when its key is a hook name, and otherwise leaves the result unchanged |
| Hook.CollectValidHooks | src/Hook.php:74-82 | the loop's result is the merged array restricted to hook names, in order, with distinct hook-name keys |
| Hook.GetValidHooks | src/Hook.php:60-83 | the method computes `ValidHooks`; its result has distinct keys, all of them hook names |
| Hook.GetHookContents | src/Hook.php:129-138 | a string is returned unchanged; a list fails exactly when the commands-sequence check fails, and otherwise is the `implode` of its commands with ` && \` and a newline for a listed hook, or a newline for any other; an empty list gives the empty string; a one-command list gives that command |
| Hook.PlainCommandsLines | src/Hook.php:131-135 | for a hook not listed in the commands section, one or more newline-free commands come back exactly as the script's lines, one per line |
| Hook.ChainedCommandsLines | src/Hook.php:131-135 | for a listed hook, one or more newline-free commands give one line each, each line but the last ending in ` && \` |
| Hook.HookContentsAppendCommand | src/Hook.php:131-135 | for one or more commands, newlines included, when the commands-sequence check succeeds, one more command appends the separator (` && \` and a newline for a listed hook, a newline otherwise) and that command to the script |
| Strings.Implode | src/Hook.php:134 | the joined string is as long as the pieces plus one glue between each two |
| Strings.ImplodeSnoc | src/Hook.php:134 | for any glue and any non-empty pieces, one more piece appends the glue and that piece |
| Strings.Lines | src/Hook.php:133-134 | splitting at newlines gives at least one line, and no line holds a newline |
| Strings.ImplodeLines | src/Hook.php:133-134 | joining with newlines is the inverse of splitting at newlines |
| Strings.LinesOfImplode | src/Hook.php:133-134 | joining one or more newline-free pieces with a newline-free `t` plus a newline gives one line per piece, `t` appended to all but the last |
| Strings.LinesOfNewlineImplode | src/Hook.php:133-134 | joining one or more newline-free pieces with a newline gives exactly those pieces back as lines |
| HookCases.OverrideSources | src/Hook.php:69-73 | a manifest defining scripts, hooks and extra.hooks objects gives those three objects, decoded, as merge inputs |
| HookCases.OverrideCase | src/Hook.php:69-80 | a hook defined in scripts, hooks and extra.hooks takes its value from extra.hooks |
| HookCases.OverrideDropsOthers | src/Hook.php:76-80 | the keys `test` (in scripts) and `config` (in extra.hooks) are dropped |
| HookCases.PlainContentsCase | src/Hook.php:129-138 | without a manifest, two commands go on two lines, and a single string is kept |
| HookCases.ChainedManifestConfig | src/Hook.php:48 | the commands section of a manifest listing a hook is that list |
| HookCases.ChainedManifestListsHook | src/Hook.php:46-51 | a hook listed in the commands section is a commands sequence |
| HookCases.ChainedContentsCase | src/Hook.php:129-138 | two commands of a listed hook are joined with ` && \` and a newline |

## Left out

- Reading the file system is not modelled. This covers `file_exists`, `file_get_contents` and the `{$dir}/composer.json` path. The manifest is a parameter: `None` for a missing file, the decoded value otherwise.
- `json_decode` parsing of text is not modelled. The decoded document is the input, and text that is not valid JSON is given as `JNull`.
- JSON numbers are kept as their literal text, since no operation looks at them.
- `LOCK_FILE` is not modelled because no modelled operation uses it.
- `PHP_EOL` is fixed to `"\n"` (a Unix build).
- The text of the exception message is not modelled. The error carries the requested section instead.
- Hook.GetConfig: the reserved-section test and the name lookups use exact string equality. PHP's loose comparison in `in_array($section, ['command'])` and PHP's integer-like array keys are not modelled.
- Hook.GetConfig: in PHP, a section name made of digits can also index into a JSON list or a string at extra.hooks.config. In the model, only objects are indexed by name, so such a section always reads as unset.
- Hook.IsHookWithCommandsSequence: `in_array` is modelled with exact string comparison, so the hook name only matches string entries; PHP's loose comparison (where `true` matches any non-empty hook name, for instance) is not modelled.
- Hook.SourceArray: array_merge renumbers integer keys. These come from JSON lists and from object names such as `"0"`. The model drops list entries and keeps integer-like names as strings. Neither can name a hook, so the result of `getValidHooks` is the same.
- Hook.GetHookContents: contents other than a string or a list of strings are not modelled. This covers numbers, nested lists and objects, and the string conversions `implode` applies to them.
- PHP 7 is not modelled. The model follows PHP 8, where `array_merge` or `in_array` on a value that is not an array raises a `TypeError`, modelled as `NotAnArray`. Under PHP 7 they warn and return null instead. Then a commands section that is not an array makes `isHookWithCommandsSequence` return a falsy null, and a scripts, hooks or extra.hooks entry that is not an array makes `getValidHooks` return `[]`.
