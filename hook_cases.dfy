/**
 * Worked cases: small manifests of the shapes a project writes, and what the
 * model makes of them, for any values stored in them.
 */
module HookCases {
  import opened Wrappers
  import opened Json
  import opened Strings
  import opened Hook

  /**
   * A manifest defining pre-commit in scripts (as a), in hooks (as b) and in
   * extra.hooks (as c), beside a test script and an extra.hooks config key.
   */
  function OverrideManifest(a: Json, b: Json, c: Json, test: Json): Json
  {
    JObj([
      ("scripts", JObj([("pre-commit", a), ("test", test)])),
      ("hooks", JObj([("pre-commit", b)])),
      ("extra", JObj([("hooks", JObj([("pre-commit", c), ("config", JObj([]))]))]))
    ])
  }

  lemma OverrideScripts(a: Json, b: Json, c: Json, test: Json)
    ensures ScriptsEntry(OverrideManifest(a, b, c, test)) == Some(JObj([("pre-commit", a), ("test", test)]))
  {
    var json := OverrideManifest(a, b, c, test);
    FindLastAt(json.members, 0);
    assert Get(json, "scripts") == Some(json.members[0].1);
  }

  lemma OverrideHooks(a: Json, b: Json, c: Json, test: Json)
    ensures HooksEntry(OverrideManifest(a, b, c, test)) == Some(JObj([("pre-commit", b)]))
  {
    var json := OverrideManifest(a, b, c, test);
    FindLastAt(json.members, 1);
    assert Get(json, "hooks") == Some(json.members[1].1);
  }

  lemma OverrideExtraHooks(a: Json, b: Json, c: Json, test: Json)
    ensures ExtraHooksEntry(OverrideManifest(a, b, c, test)) == Some(JObj([("pre-commit", c), ("config", JObj([]))]))
  {
    var json := OverrideManifest(a, b, c, test);
    var extra := json.members[2].1;
    FindLastAt(json.members, 2);
    FindLastAt(extra.members, 0);
    assert Get(json, "extra") == Some(extra);
    assert Get(extra, "hooks") == Some(extra.members[0].1);
  }

  /** When the three entries are objects, they decode to the three arrays the merge takes. */
  lemma SourcesOfObjects(json: Json, scripts: Assoc, hooks: Assoc, extraHooks: Assoc)
    requires ScriptsEntry(json) == Some(JObj(scripts))
    requires HooksEntry(json) == Some(JObj(hooks))
    requires ExtraHooksEntry(json) == Some(JObj(extraHooks))
    ensures ManifestSources(json) == Success(Sources(Decode(scripts), Decode(hooks), Decode(extraHooks)))
  {
  }

  /** The three entries, as the arrays they give array_merge. */
  lemma OverrideSources(a: Json, b: Json, c: Json, test: Json)
    ensures ManifestSources(OverrideManifest(a, b, c, test)) == Success(Sources(
      Decode([("pre-commit", a), ("test", test)]),
      Decode([("pre-commit", b)]),
      Decode([("pre-commit", c), ("config", JObj([]))])))
  {
    OverrideScripts(a, b, c, test);
    OverrideHooks(a, b, c, test);
    OverrideExtraHooks(a, b, c, test);
    SourcesOfObjects(OverrideManifest(a, b, c, test),
      [("pre-commit", a), ("test", test)], [("pre-commit", b)], [("pre-commit", c), ("config", JObj([]))]);
  }

  /** extra.hooks wins over hooks and scripts. */
  lemma OverrideCase(a: Json, b: Json, c: Json, test: Json)
    ensures ValidHooks(Some(OverrideManifest(a, b, c, test))).Success?
    ensures Find(ValidHooks(Some(OverrideManifest(a, b, c, test))).value, "pre-commit") == Some(c)
  {
    var json := OverrideManifest(a, b, c, test);
    var src := Sources(Decode([("pre-commit", a), ("test", test)]), Decode([("pre-commit", b)]), Decode([("pre-commit", c), ("config", JObj([]))]));
    OverrideSources(a, b, c, test);
    OverrideExtraFind(c);
    ListedNamesAccepted();
    ValidHooksPrecedence(json, src, "pre-commit");
  }

  lemma OverrideExtraFind(c: Json)
    ensures Find(Decode([("pre-commit", c), ("config", JObj([]))]), "pre-commit") == Some(c)
  {
    var x := [("pre-commit", c), ("config", JObj([]))];
    DecodeFind(x, "pre-commit");
    FindLastAt(x, 0);
  }

  /** The test script and the config key of extra.hooks are not hooks and are dropped. */
  lemma OverrideDropsOthers(a: Json, b: Json, c: Json, test: Json)
    ensures ValidHooks(Some(OverrideManifest(a, b, c, test))).Success?
    ensures Find(ValidHooks(Some(OverrideManifest(a, b, c, test))).value, "test") == None
    ensures Find(ValidHooks(Some(OverrideManifest(a, b, c, test))).value, "config") == None
  {
    var json := OverrideManifest(a, b, c, test);
    var src := Sources(Decode([("pre-commit", a), ("test", test)]), Decode([("pre-commit", b)]), Decode([("pre-commit", c), ("config", JObj([]))]));
    OverrideSources(a, b, c, test);
    OtherKeysRejected();
    ValidHooksPrecedence(json, src, "test");
    ValidHooksPrecedence(json, src, "config");
  }

  /** Two commands of a hook, without a manifest, go on two plain lines; a single command is kept. */
  lemma PlainContentsCase(hook: string, first: string, second: string)
    ensures GetHookContents(None, Commands([first, second]), hook) == Success(first + "\n" + second)
    ensures GetHookContents(None, Script(first), hook) == Success(first)
  {
    assert GetConfig(None, CommandsSection) == Success(EmptyArray);
    assert IsHookWithCommandsSequence(None, hook) == Success(false);
    assert [first, second][1..] == [second];
    assert Implode(LineSeparator, [first, second]) == first + LineSeparator + second;
  }

  /** A manifest whose commands section lists exactly the given hook. */
  function ChainedManifest(hook: string): Json
  {
    JObj([("extra", JObj([("hooks", JObj([("config", JObj([("commands", JArr([JStr(hook)]))]))]))]))])
  }

  /** Each step of the path extra.hooks.config.commands is set in that manifest. */
  lemma ChainedManifestSteps(hook: string)
    ensures var json := ChainedManifest(hook);
      var extra := json.members[0].1;
      var hooks := extra.members[0].1;
      var config := hooks.members[0].1;
      && Get(json, "extra") == Some(extra)
      && Get(extra, "hooks") == Some(hooks)
      && Get(hooks, "config") == Some(config)
      && Get(config, CommandsSection) == Some(JArr([JStr(hook)]))
  {
    var json := ChainedManifest(hook);
    var extra := json.members[0].1;
    var hooks := extra.members[0].1;
    var config := hooks.members[0].1;
    FindLastAt(json.members, 0);
    FindLastAt(extra.members, 0);
    FindLastAt(hooks.members, 0);
    FindLastAt(config.members, 0);
  }

  /** The commands section of that manifest is the stored list itself. */
  lemma ChainedManifestConfig(hook: string)
    ensures GetConfig(Some(ChainedManifest(hook)), CommandsSection) == Success(JArr([JStr(hook)]))
  {
    ChainedManifestSteps(hook);
    LookupConfigPath(ChainedManifest(hook), CommandsSection);
  }

  lemma ChainedManifestListsHook(hook: string)
    ensures IsHookWithCommandsSequence(Some(ChainedManifest(hook)), hook) == Success(true)
  {
    ChainedManifestConfig(hook);
  }

  /** Two commands of a listed hook are chained with ` && \` and a newline. */
  lemma ChainedContentsCase(hook: string, first: string, second: string)
    ensures GetHookContents(Some(ChainedManifest(hook)), Commands([first, second]), hook) == Success(first + " && \\\n" + second)
  {
    ChainedManifestListsHook(hook);
    assert [first, second][1..] == [second];
    assert Implode(ChainSeparator, [first, second]) == first + ChainSeparator + second;
    assert ChainSeparator == " && \\\n";
  }
}
