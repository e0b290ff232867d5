/**
 * The hook configuration of a project: which git hooks its manifest
 * (composer.json) defines, and the script text each hook gets.
 *
 * The manifest comes already read and decoded: `None` when there is no
 * manifest file, `Some(JNull)` when its text is not valid JSON (json_decode
 * then yields null, which behaves like a manifest without configuration).
 */
module Hook {
  import opened Wrappers
  import opened Json
  import opened Strings

  datatype HookError =
    | InvalidConfigSection(section: string)  // the reserved section name was asked for
    | NotAnArray                             // PHP TypeError: array_merge or in_array handed a value that is not an array

  /** What a hook runs: one command string, or a list of commands. */
  datatype Contents = Script(text: string) | Commands(lines: seq<string>)

  /** The hook names git knows (the githooks(5) manual page). */
  const HookNames: seq<string> := [
    "applypatch-msg",
    "commit-msg",
    "post-applypatch",
    "post-checkout",
    "post-commit",
    "post-merge",
    "post-receive",
    "post-rewrite",
    "post-update",
    "pre-applypatch",
    "pre-auto-gc",
    "pre-commit",
    "pre-push",
    "pre-rebase",
    "pre-receive",
    "prepare-commit-msg",
    "push-to-checkout",
    "update"
  ]

  /** The section name that may not be looked up. */
  const ReservedSection := "command"
  /** The section listing the hooks whose commands run as one chain. */
  const CommandsSection := "commands"
  /** PHP's `[]`. */
  const EmptyArray := JArr([])
  /** What ends every line but the last of a chained hook. */
  const ChainSuffix := " && \\"
  const ChainSeparator := ChainSuffix + "\n"
  const LineSeparator := "\n"

  // ---------------------------------------------------------------------------
  // The allow-list

  /** `array_flip`: each name mapped to its position; a repeated name keeps its last position. */
  function Flip(names: seq<string>): (r: map<string, nat>)
    ensures forall x :: x in r <==> x in names
    ensures forall x :: x in r ==> r[x] < |names| && names[r[x]] == x && x !in names[r[x] + 1..]
  {
    if names == [] then map[]
    else
      var n := |names| - 1;
      var init := Flip(names[..n]);
      FlipStep(names, init);
      init[names[n] := n]
  }

  /** Adding the last name at the last position keeps every position the last one. */
  lemma FlipStep(names: seq<string>, init: map<string, nat>)
    requires names != []
    requires forall x :: x in init <==> x in names[..|names| - 1]
    requires forall x :: x in init ==> init[x] < |names| - 1 && names[..|names| - 1][init[x]] == x && x !in names[..|names| - 1][init[x] + 1..]
    ensures var r := init[names[|names| - 1] := |names| - 1];
      && (forall x :: x in r <==> x in names)
      && (forall x :: x in r ==> r[x] < |names| && names[r[x]] == x && x !in names[r[x] + 1..])
  {
    var n := |names| - 1;
    var r := init[names[n] := n];
    assert names == names[..n] + [names[n]];
    forall x | x in r
      ensures r[x] < |names| && names[r[x]] == x && x !in names[r[x] + 1..]
    {
      if x != names[n] {
        assert names[init[x] + 1..] == names[..n][init[x] + 1..] + [names[n]];
      }
    }
  }

  /** The valid hooks, keyed by name. */
  function GetHooks(): (hooks: map<string, nat>)
    ensures forall x :: x in hooks <==> x in HookNames
    ensures forall x :: x in hooks ==> hooks[x] < |HookNames| && HookNames[hooks[x]] == x
  {
    Flip(HookNames)
  }

  /** A hook name is valid exactly when it is one of the listed names, character for character. */
  function IsValidHook(hook: string): (valid: bool)
    ensures valid <==> hook in HookNames
  {
    hook in GetHooks()
  }

  lemma HookNamesDistinct()
    ensures |HookNames| == 18 && Unique(HookNames)
  {
  }

  lemma ListedNamesAccepted()
    ensures IsValidHook("pre-commit") && IsValidHook("update")
  {
    assert HookNames[11] == "pre-commit" && HookNames[17] == "update";
  }

  /** Matching is case-sensitive: every listed name starts with a lower-case letter. */
  lemma CaseVariantsRejected()
    ensures !IsValidHook("Pre-Commit") && !IsValidHook("PRE-PUSH")
  {
    forall h | h in HookNames
      ensures |h| > 0 && 'a' <= h[0] <= 'z'
    {
    }
  }

  /** A prefix or an extension of a hook name is not a hook name. */
  lemma NearMissesRejected()
    ensures !IsValidHook("pre-commit-msg") && !IsValidHook("pre")
  {
    assert "pre-commit-msg" !in HookNames;
    assert "pre" !in HookNames;
  }

  /** Other keys found beside the hooks are not hook names. */
  lemma OtherKeysRejected()
    ensures !IsValidHook("config") && !IsValidHook("test") && !IsValidHook("")
  {
    forall h | h in HookNames
      ensures |h| >= 6 && (|h| == 6 ==> h[0] == 'u')
    {
    }
    assert "config"[0] == 'c';
  }

  // ---------------------------------------------------------------------------
  // Configuration sections

  /** Where a configuration section is stored in the manifest. */
  function ConfigPath(section: string): seq<string>
  {
    ["extra", "hooks", "config", section]
  }

  lemma LookupConfigPath(json: Json, section: string)
    ensures LookupPath(Some(json), ConfigPath(section)) == GetIn(GetIn(GetIn(Get(json, "extra"), "hooks"), "config"), section)
  {
    var path := ConfigPath(section);
    var o1 := GetIn(Some(json), "extra");
    var o2 := GetIn(o1, "hooks");
    var o3 := GetIn(o2, "config");
    var o4 := GetIn(o3, section);
    assert LookupPath(Some(json), path) == LookupPath(o1, path[1..]);
    assert path[1..] == ["hooks", "config", section];
    assert LookupPath(o1, ["hooks", "config", section]) == LookupPath(o2, ["config", section]);
    assert LookupPath(o2, ["config", section]) == LookupPath(o3, [section]);
    assert LookupPath(o3, [section]) == LookupPath(o4, []);
  }

  /**
   * `getConfig`: the value stored at extra.hooks.config.<section>, or `[]` when
   * there is no manifest or nothing (or null) is stored there. The reserved
   * section fails whatever the manifest holds.
   */
  function GetConfig(manifest: Option<Json>, section: string): (r: Result<Json, HookError>)
    ensures r.Failure? <==> section == ReservedSection
    ensures r.Failure? ==> r.error == InvalidConfigSection(section)
    ensures r.Success? && manifest.None? ==> r.value == EmptyArray
    ensures r.Success? && manifest.Some? ==> r.value == LookupPath(manifest, ConfigPath(section)).GetOr(EmptyArray)
  {
    if section == ReservedSection then Failure(InvalidConfigSection(section))
    else
      match manifest
      case None => Success(EmptyArray)
      case Some(json) =>
        LookupConfigPath(json, section);
        match GetIn(GetIn(GetIn(Get(json, "extra"), "hooks"), "config"), section)
        case None => Success(EmptyArray)
        case Some(v) => Success(v)
  }

  /** A section stored in the manifest comes back exactly as written. */
  lemma GetConfigReturnsStored(section: string, stored: Json)
    requires section != ReservedSection && stored != JNull
    ensures GetConfig(Some(JObj([("extra", JObj([("hooks", JObj([("config", JObj([(section, stored)]))]))]))])), section) == Success(stored)
  {
    var config := JObj([(section, stored)]);
    var hooks := JObj([("config", config)]);
    var extra := JObj([("hooks", hooks)]);
    var json := JObj([("extra", extra)]);
    assert Get(json, "extra") == Some(extra);
    assert Get(extra, "hooks") == Some(hooks);
    assert Get(hooks, "config") == Some(config);
    assert Get(config, section) == Some(stored);
  }

  /** A section stored as null counts as not stored. */
  lemma GetConfigNullIsEmpty(section: string)
    requires section != ReservedSection
    ensures GetConfig(Some(JObj([("extra", JObj([("hooks", JObj([("config", JObj([(section, JNull)]))]))]))])), section) == Success(EmptyArray)
  {
    var config := JObj([(section, JNull)]);
    var hooks := JObj([("config", config)]);
    var extra := JObj([("hooks", hooks)]);
    var json := JObj([("extra", extra)]);
    assert Get(json, "extra") == Some(extra);
    assert Get(extra, "hooks") == Some(hooks);
    assert Get(hooks, "config") == Some(config);
    assert Get(config, section) == None;
  }

  // ---------------------------------------------------------------------------
  // Commands sequences

  /** `in_array($needle, $haystack)` with exact string comparison; anything but an array is a TypeError. */
  function InArray(needle: string, haystack: Json): (r: Result<bool, HookError>)
    ensures r.Failure? <==> !haystack.JArr? && !haystack.JObj?
    ensures r.Failure? ==> r.error == NotAnArray
    ensures haystack.JArr? ==> r == Success(JStr(needle) in haystack.items)
    ensures haystack.JObj? ==> r == Success(exists k :: FindLast(haystack.members, k) == Some(JStr(needle)))
  {
    match haystack
    case JArr(items) => Success(JStr(needle) in items)
    case JObj(members) =>
      InDecodedValues(members, JStr(needle));
      Success(JStr(needle) in ValueList(Decode(members)))
    case _ => Failure(NotAnArray)
  }

  /** A string is among the values of a decoded object when some member name holds it last. */
  lemma InDecodedValues(members: seq<(string, Json)>, v: Json)
    ensures v in ValueList(Decode(members)) <==> exists k :: FindLast(members, k) == Some(v)
  {
    var d := Decode(members);
    if v in ValueList(d) {
      var i :| 0 <= i < |d| && ValueList(d)[i] == v;
      var k := d[i].0;
      assert (k, v) in d;
      PairKeyInKeyList(d, k, v);
      var w := Find(d, k).value;
      UniqueKeyOneValue(d, k, v, w);
      DecodeFind(members, k);
    }
    if exists k :: FindLast(members, k) == Some(v) {
      var k :| FindLast(members, k) == Some(v);
      DecodeFind(members, k);
      var i :| 0 <= i < |d| && d[i] == (k, v);
      assert ValueList(d)[i] == v;
    }
  }

  /** The value of the commands section, when the manifest stores one. */
  function CommandsConfig(manifest: Option<Json>): (r: Option<Json>)
    ensures manifest.None? ==> r.None?
    ensures r.Some? ==> r.value != JNull
    ensures manifest.Some? ==> r == GetIn(GetIn(GetIn(Get(manifest.value, "extra"), "hooks"), "config"), CommandsSection)
  {
    if manifest.None? then None
    else
      LookupConfigPath(manifest.value, CommandsSection);
      LookupPath(manifest, ConfigPath(CommandsSection))
  }

  /**
   * `isHookWithCommandsSequence`: whether the hook is listed in the commands
   * section. Without a manifest or a commands section the answer is no; a
   * commands section that is not an array is an error.
   */
  function IsHookWithCommandsSequence(manifest: Option<Json>, hook: string): (r: Result<bool, HookError>)
    ensures r.Failure? ==> r.error == NotAnArray
    ensures CommandsConfig(manifest).None? ==> r == Success(false)
    ensures r.Failure? <==> CommandsConfig(manifest).Some? && !CommandsConfig(manifest).value.JArr? && !CommandsConfig(manifest).value.JObj?
    ensures CommandsConfig(manifest).Some? && CommandsConfig(manifest).value.JArr? ==>
      r == Success(JStr(hook) in CommandsConfig(manifest).value.items)
    ensures CommandsConfig(manifest).Some? && CommandsConfig(manifest).value.JObj? ==>
      r == Success(exists k :: FindLast(CommandsConfig(manifest).value.members, k) == Some(JStr(hook)))
  {
    match GetConfig(manifest, CommandsSection)
    case Failure(e) => Failure(e)
    case Success(config) =>
      if config.JObj? then
        InDecodedValues(config.members, JStr(hook));
        InArray(hook, config)
      else
        InArray(hook, config)
  }

  // ---------------------------------------------------------------------------
  // The hooks a manifest defines

  /** The three manifest entries that define hooks, each as the array it gives array_merge. */
  datatype Sources = Sources(scripts: Assoc, hooks: Assoc, extraHooks: Assoc)

  /** An entry array_merge accepts: unset, or an array. */
  predicate MergeableEntry(entry: Option<Json>)
  {
    entry.None? || entry.value.JObj? || entry.value.JArr?
  }

  /**
   * `isset($entry) ? $entry : []` as an argument of array_merge. A JSON list has
   * only integer keys, which array_merge renumbers and which never name a hook,
   * so it contributes no named entry.
   */
  function SourceArray(entry: Option<Json>): (r: Result<Assoc, HookError>)
    ensures r.Success? <==> MergeableEntry(entry)
    ensures r.Failure? ==> r.error == NotAnArray
    ensures r.Success? ==> Unique(KeyList(r.value))
    ensures entry.None? || entry.value.JArr? ==> r == Success([])
    ensures r.Success? && entry.Some? && entry.value.JObj? ==>
      forall k :: Find(r.value, k) == FindLast(entry.value.members, k)
  {
    match entry
    case None => Success([])
    case Some(JObj(members)) =>
      assert forall k :: Find(Decode(members), k) == FindLast(members, k) by {
        forall k { DecodeFind(members, k); }
      }
      Success(Decode(members))
    case Some(JArr(_)) => Success([])
    case Some(_) => Failure(NotAnArray)
  }

  function ScriptsEntry(json: Json): Option<Json> { Get(json, "scripts") }
  function HooksEntry(json: Json): Option<Json> { Get(json, "hooks") }
  function ExtraHooksEntry(json: Json): Option<Json> { GetIn(Get(json, "extra"), "hooks") }

  /** The scripts, hooks and extra.hooks entries of the manifest. */
  function ManifestSources(json: Json): (r: Result<Sources, HookError>)
    ensures r.Success? <==> MergeableEntry(ScriptsEntry(json)) && MergeableEntry(HooksEntry(json)) && MergeableEntry(ExtraHooksEntry(json))
    ensures r.Success? ==> Unique(KeyList(r.value.scripts)) && Unique(KeyList(r.value.hooks)) && Unique(KeyList(r.value.extraHooks))
  {
    var scripts :- SourceArray(ScriptsEntry(json));
    var hooks :- SourceArray(HooksEntry(json));
    var extraHooks :- SourceArray(ExtraHooksEntry(json));
    Success(Sources(scripts, hooks, extraHooks))
  }

  /** Every key of the three entries, in merge order. */
  function AllKeys(src: Sources): seq<string>
  {
    KeyList(src.scripts) + KeyList(src.hooks) + KeyList(src.extraHooks)
  }

  /** The pairs of a whose key is a hook name, in their order. */
  function OnlyValid(a: Assoc): Assoc
  {
    Restrict(a, HookNames)
  }

  /**
   * `getValidHooks` as a function: the merge of scripts, hooks and extra.hooks
   * restricted to hook names; nothing without a manifest.
   */
  function ValidHooks(manifest: Option<Json>): (r: Result<Assoc, HookError>)
    ensures manifest.None? ==> r == Success([])
    ensures r.Failure? ==> r.error == NotAnArray
    ensures r.Success? ==> Unique(KeyList(r.value)) && forall k :: k in KeyList(r.value) ==> IsValidHook(k)
  {
    match manifest
    case None => Success([])
    case Some(json) =>
      match ManifestSources(json)
      case Failure(e) => Failure(e)
      case Success(src) =>
        var merged := ArrayMerge(src.scripts, src.hooks, src.extraHooks);
        OnlyValidHookNames(merged);
        Success(OnlyValid(merged))
  }

  /** After filtering, the keys are hook names, each once. */
  lemma OnlyValidHookNames(a: Assoc)
    requires Unique(KeyList(a))
    ensures Unique(KeyList(OnlyValid(a))) && forall k :: k in KeyList(OnlyValid(a)) ==> IsValidHook(k)
  {
    RestrictUnique(a, HookNames);
    forall k | k in KeyList(OnlyValid(a))
      ensures IsValidHook(k)
    {
      RestrictKeys(a, k, HookNames);
    }
  }

  /** Without a manifest, or with one that is not valid JSON, no hook is defined. */
  lemma ValidHooksWithoutConfiguration()
    ensures ValidHooks(None) == Success([])
    ensures ValidHooks(Some(JNull)) == Success([])
  {
  }

  /** The merge fails exactly when scripts, hooks or extra.hooks holds something other than an array. */
  lemma ValidHooksFailure(json: Json)
    ensures ValidHooks(Some(json)).Failure? <==>
      !(MergeableEntry(ScriptsEntry(json)) && MergeableEntry(HooksEntry(json)) && MergeableEntry(ExtraHooksEntry(json)))
  {
  }

  /**
   * Every key of the result is a hook name, each at most once; a hook name is
   * a key exactly when one of the three entries defines it, and its value is,
   * unchanged, the one from the last entry that defines it.
   */
  lemma ValidHooksPrecedence(json: Json, src: Sources, k: string)
    requires ManifestSources(json) == Success(src)
    ensures ValidHooks(Some(json)).Success?
    ensures var r := ValidHooks(Some(json)).value;
      && Unique(KeyList(r))
      && (k in KeyList(r) <==> IsValidHook(k) && k in AllKeys(src))
      && Find(r, k) ==
           if !IsValidHook(k) then None
           else if k in KeyList(src.extraHooks) then Find(src.extraHooks, k)
           else if k in KeyList(src.hooks) then Find(src.hooks, k)
           else Find(src.scripts, k)
  {
    var merged := ArrayMerge(src.scripts, src.hooks, src.extraHooks);
    RestrictUnique(merged, HookNames);
    RestrictKeys(merged, k, HookNames);
    RestrictFind(merged, k, HookNames);
    ArrayMergeFind(src.scripts, src.hooks, src.extraHooks, k);
    ArrayMergeKeys(src.scripts, src.hooks, src.extraHooks);
  }

  /** The result lists the hooks in the order in which they first appear in scripts, hooks, extra.hooks. */
  lemma ValidHooksOrder(json: Json, src: Sources)
    requires ManifestSources(json) == Success(src)
    ensures ValidHooks(Some(json)).Success?
    ensures InFirstOccurrenceOrder(KeyList(ValidHooks(Some(json)).value), AllKeys(src))
  {
    var merged := ArrayMerge(src.scripts, src.hooks, src.extraHooks);
    ArrayMergeKeys(src.scripts, src.hooks, src.extraHooks);
    RestrictOrder(merged, HookNames, AllKeys(src));
  }

  /**
   * `getValidHooks`: merges scripts, hooks and extra.hooks, then keeps the
   * pairs whose key is a hook name.
   */
  method GetValidHooks(manifest: Option<Json>) returns (r: Result<Assoc, HookError>)
    ensures r == ValidHooks(manifest)
    ensures r.Success? ==> Unique(KeyList(r.value)) && forall k :: k in KeyList(r.value) ==> IsValidHook(k)
  {
    if manifest.None? {
      return Success([]);
    }
    var sources := ManifestSources(manifest.value);
    if sources.Failure? {
      return Failure(sources.error);
    }
    var src := sources.value;
    var hooks := ArrayMerge(src.scripts, src.hooks, src.extraHooks);
    var validHooks := CollectValidHooks(hooks);
    r := Success(validHooks);
  }

  /** One turn of the loop: a valid key is new to the result, so `$validHooks[$hook] = $script` appends it. */
  lemma CollectStep(hooks: Assoc, i: nat)
    requires Unique(KeyList(hooks)) && i < |hooks|
    ensures OnlyValid(hooks[..i + 1]) ==
      if IsValidHook(hooks[i].0) then Put(OnlyValid(hooks[..i]), hooks[i].0, hooks[i].1) else OnlyValid(hooks[..i])
  {
    assert hooks[..i + 1] == hooks[..i] + [hooks[i]];
    RestrictSnoc(hooks[..i], hooks[i], HookNames);
    if IsValidHook(hooks[i].0) {
      UniqueKeyNotEarlier(hooks, i);
      RestrictKeys(hooks[..i], hooks[i].0, HookNames);
    }
  }

  /** The loop of `getValidHooks`: copies each pair whose key is a hook name into the result, in order. */
  method CollectValidHooks(hooks: Assoc) returns (validHooks: Assoc)
    requires Unique(KeyList(hooks))
    ensures validHooks == OnlyValid(hooks)
    ensures Unique(KeyList(validHooks)) && forall k :: k in KeyList(validHooks) ==> IsValidHook(k)
  {
    validHooks := [];
    var i := 0;
    while i < |hooks|
      invariant 0 <= i <= |hooks|
      invariant validHooks == OnlyValid(hooks[..i])
    {
      var (hook, script) := hooks[i];
      CollectStep(hooks, i);
      if IsValidHook(hook) {
        validHooks := Put(validHooks, hook, script);
      }
      i := i + 1;
    }
    assert hooks[..i] == hooks;
    OnlyValidHookNames(hooks);
  }

  // ---------------------------------------------------------------------------
  // Hook contents

  /**
   * `getHookContents`: a single command is returned as it is; a list of
   * commands is joined into one line per command, chained with `&&` when the
   * hook is listed in the commands section.
   */
  function GetHookContents(manifest: Option<Json>, contents: Contents, hook: string): (r: Result<string, HookError>)
    ensures contents.Script? ==> r == Success(contents.text)
    ensures contents.Commands? ==> (r.Failure? <==> IsHookWithCommandsSequence(manifest, hook).Failure?)
    ensures contents.Commands? && |contents.lines| == 0 && r.Success? ==> r.value == ""
    ensures contents.Commands? && |contents.lines| == 1 && r.Success? ==> r.value == contents.lines[0]
    ensures contents.Commands? && r.Success? ==>
      r.value == Implode(if IsHookWithCommandsSequence(manifest, hook).value then ChainSeparator else LineSeparator, contents.lines)
  {
    match contents
    case Script(text) => Success(text)
    case Commands(lines) =>
      match IsHookWithCommandsSequence(manifest, hook)
      case Failure(e) => Failure(e)
      case Success(chained) =>
        var separator := if chained then ChainSeparator else LineSeparator;
        Success(Implode(separator, lines))
  }

  /** A hook not listed in the commands section gets one line per command, as given. */
  lemma PlainCommandsLines(manifest: Option<Json>, lines: seq<string>, hook: string)
    requires IsHookWithCommandsSequence(manifest, hook) == Success(false)
    requires |lines| > 0 && forall i :: 0 <= i < |lines| ==> NoNewline(lines[i])
    ensures GetHookContents(manifest, Commands(lines), hook).Success?
    ensures Lines(GetHookContents(manifest, Commands(lines), hook).value) == lines
  {
    LinesOfNewlineImplode(lines);
  }

  /** A hook listed in the commands section gets one line per command, each but the last ending in ` && \`. */
  lemma ChainedCommandsLines(manifest: Option<Json>, lines: seq<string>, hook: string)
    requires IsHookWithCommandsSequence(manifest, hook) == Success(true)
    requires |lines| > 0 && forall i :: 0 <= i < |lines| ==> NoNewline(lines[i])
    ensures GetHookContents(manifest, Commands(lines), hook).Success?
    ensures Lines(GetHookContents(manifest, Commands(lines), hook).value) ==
      Suffixed(lines[..|lines| - 1], ChainSuffix) + [lines[|lines| - 1]]
  {
    assert NoNewline(ChainSuffix);
    assert GetHookContents(manifest, Commands(lines), hook) == Success(Implode(ChainSuffix + "\n", lines));
    LinesOfImplode(ChainSuffix, lines);
  }

  /**
   * One more command, whatever it holds (newlines included), adds the separator
   * and that command to the end of the script.
   */
  lemma HookContentsAppendCommand(manifest: Option<Json>, lines: seq<string>, line: string, hook: string)
    requires lines != []
    requires IsHookWithCommandsSequence(manifest, hook).Success?
    ensures var separator := if IsHookWithCommandsSequence(manifest, hook).value then ChainSeparator else LineSeparator;
      GetHookContents(manifest, Commands(lines + [line]), hook) ==
      Success(GetHookContents(manifest, Commands(lines), hook).value + separator + line)
  {
    var separator := if IsHookWithCommandsSequence(manifest, hook).value then ChainSeparator else LineSeparator;
    ImplodeSnoc(separator, lines, line);
  }
}
