/**
 * The module configuration of ModuleConfiguration: property keys of the form
 * `module.<name>.key` name a module, whose key, description and
 * space-separated dependencies are looked up under `module.<name>.key`,
 * `module.<name>.description` and `module.<name>.dependencies`.
 */
module Configuration {
  import opened Wrappers
  import opened JavaStrings

  /** A key of a java.util.Properties table: a String, or an object of another class. */
  datatype Key = StringKey(text: string) | OtherKey

  /**
   * A properties table: its keys in the order its key set iterates them, and
   * the String values of its String keys.
   */
  datatype Properties = Properties(keys: seq<Key>, table: map<string, string>)

  /** `getProperty(key)`, None standing for null. */
  function GetProperty(p: Properties, key: string): Option<string> {
    if key in p.table then Some(p.table[key]) else None
  }

  /** The exception parsing can end in. */
  datatype ConfigError = NullPointerException

  /** A key that names a module. */
  predicate IsModuleKey(key: string) {
    StartsWith(key, "module.") && EndsWith(key, ".key")
  }

  /** The module prefix of a module key: the key up to its last dot, which is the one of ".key". */
  function ModulePrefix(key: string): (r: string)
    requires IsModuleKey(key)
    ensures r + ".key" == key
  {
    var n := |key| - 4;
    assert key[n..] == ".key";
    assert key[n] == '.' && key[n + 1] != '.' && key[n + 2] != '.' && key[n + 3] != '.';
    assert LastIndexOf(key, '.') == n;
    key[..LastIndexOf(key, '.')]
  }

  /** The prefixes the first loop of `parseConfiguration` collects, in key order. */
  function ModulePrefixes(keys: seq<Key>): seq<string>
    decreases |keys|
  {
    if |keys| == 0 then []
    else
      var last := keys[|keys| - 1];
      ModulePrefixes(keys[..|keys| - 1])
        + (if last.StringKey? && IsModuleKey(last.text) then [ModulePrefix(last.text)] else [])
  }

  /** One more key adds its prefix, if it is a module key, to the collected prefixes. */
  lemma PrefixesStep(keys: seq<Key>, i: nat)
    requires i < |keys|
    ensures ModulePrefixes(keys[..i + 1]) == ModulePrefixes(keys[..i])
      + (if keys[i].StringKey? && IsModuleKey(keys[i].text) then [ModulePrefix(keys[i].text)] else [])
  {
    assert keys[..i + 1][..i] == keys[..i];
  }

  /** The shortest module key, `module.key`, names the module prefix `module`. */
  lemma ShortestModuleKey()
    ensures IsModuleKey("module.key") && ModulePrefix("module.key") == "module"
  {
    assert "module.key"[..7] == "module.";
    assert "module.key"[6..] == ".key";
    assert ModulePrefix("module.key") + ".key" == "module" + ".key";
  }

  /**
   * A prefix is collected exactly when its `.key` property is a String key of
   * the table that starts with "module.".
   */
  lemma {:induction false} PrefixCollectedIffKeyPresent(keys: seq<Key>, q: string)
    ensures q in ModulePrefixes(keys) <==> StringKey(q + ".key") in keys && IsModuleKey(q + ".key")
    decreases |keys|
  {
    if |keys| > 0 {
      var init := keys[..|keys| - 1];
      var last := keys[|keys| - 1];
      PrefixCollectedIffKeyPresent(init, q);
      assert keys == init + [last];
      assert StringKey(q + ".key") in keys <==> StringKey(q + ".key") in init || last == StringKey(q + ".key");
      if last.StringKey? && IsModuleKey(last.text) {
        SameKeySamePrefix(ModulePrefix(last.text), q);
      }
    }
  }

  /** Two prefixes give the same `.key` property exactly when they are the same. */
  lemma SameKeySamePrefix(a: string, b: string)
    ensures a + ".key" == b + ".key" <==> a == b
  {
    if a + ".key" == b + ".key" {
      assert a == (a + ".key")[..|a|];
    }
  }

  /** What one module of the configuration holds, as its getters report it. */
  datatype ModuleRecord = ModuleRecord(key: Option<string>, description: Option<string>, dependencies: seq<string>)

  /**
   * The module the second loop builds for a prefix, or None where its
   * dependencies are missing and `split` is called on null.
   */
  function Record(p: Properties, prefix: string): Option<ModuleRecord> {
    match GetProperty(p, prefix + ".dependencies")
    case None => None
    case Some(deps) =>
      Some(ModuleRecord(GetProperty(p, prefix + ".key"), GetProperty(p, prefix + ".description"), Split(deps, ' ')))
  }

  /** The modules built for a list of prefixes, in order, or the exception of the first one without dependencies. */
  function BuildAll(p: Properties, prefixes: seq<string>): Result<seq<ModuleRecord>, ConfigError>
    decreases |prefixes|
  {
    if |prefixes| == 0 then Ok([])
    else
      match BuildAll(p, prefixes[..|prefixes| - 1])
      case Err(e) => Err(e)
      case Ok(built) =>
        match Record(p, prefixes[|prefixes| - 1])
        case None => Err(NullPointerException)
        case Some(m) => Ok(built + [m])
  }

  /** `parseConfiguration` with the module list initialised to an empty list. */
  function Parse(p: Properties): Result<seq<ModuleRecord>, ConfigError> {
    BuildAll(p, ModulePrefixes(p.keys))
  }

  /**
   * Building succeeds exactly when every prefix has dependencies, and then
   * gives one module per prefix, in order, each holding the prefix's looked-up
   * key, description and split dependencies.
   */
  lemma {:induction false} BuildAllShape(p: Properties, prefixes: seq<string>)
    ensures BuildAll(p, prefixes).Ok? <==> forall k :: 0 <= k < |prefixes| ==> Record(p, prefixes[k]).Some?
    ensures BuildAll(p, prefixes).Ok? ==>
      |BuildAll(p, prefixes).value| == |prefixes|
      && forall k :: 0 <= k < |prefixes| ==> BuildAll(p, prefixes).value[k] == Record(p, prefixes[k]).value
    decreases |prefixes|
  {
    if |prefixes| > 0 {
      var n := |prefixes| - 1;
      var init := prefixes[..n];
      BuildAllShape(p, init);
      assert forall k :: 0 <= k < n ==> init[k] == prefixes[k];
      if BuildAll(p, init).Err? {
        var k :| 0 <= k < n && Record(p, init[k]).None?;
        assert Record(p, prefixes[k]).None?;
      } else if Record(p, prefixes[n]).None? {
        assert BuildAll(p, prefixes).Err?;
      } else {
        var built := BuildAll(p, init).value;
        assert BuildAll(p, prefixes).value == built + [Record(p, prefixes[n]).value];
      }
    }
  }

  /** One more prefix adds its module, or ends building in the exception when it has no dependencies. */
  lemma BuildAllStep(p: Properties, prefixes: seq<string>, i: nat)
    requires i < |prefixes| && BuildAll(p, prefixes[..i]).Ok?
    ensures Record(p, prefixes[i]).None? ==> BuildAll(p, prefixes[..i + 1]).Err?
    ensures Record(p, prefixes[i]).Some? ==>
      BuildAll(p, prefixes[..i + 1]) == Ok(BuildAll(p, prefixes[..i]).value + [Record(p, prefixes[i]).value])
  {
    assert prefixes[..i + 1][..i] == prefixes[..i];
  }

  /** An exception for a prefix list's beginning is the exception for the whole list. */
  lemma {:induction false} BuildAllErrPersists(p: Properties, prefixes: seq<string>, j: nat)
    requires j <= |prefixes| && BuildAll(p, prefixes[..j]).Err?
    ensures BuildAll(p, prefixes).Err?
    decreases |prefixes| - j
  {
    if j < |prefixes| {
      var longer := prefixes[..j + 1];
      assert longer[..j] == prefixes[..j];
      BuildAllErrPersists(p, prefixes, j + 1);
    } else {
      assert prefixes[..j] == prefixes;
    }
  }

  /**
   * The corrected parse fails exactly when some collected prefix lacks a
   * `.dependencies` value; otherwise each module's key and description are the
   * values of `<prefix>.key` and `<prefix>.description`, and its dependencies
   * are the pieces of `<prefix>.dependencies` between single spaces.
   */
  lemma ParseOutcome(p: Properties)
    ensures Parse(p).Ok? <==> forall k :: 0 <= k < |ModulePrefixes(p.keys)| ==> ModulePrefixes(p.keys)[k] + ".dependencies" in p.table
    ensures Parse(p).Ok? ==> |Parse(p).value| == |ModulePrefixes(p.keys)|
    ensures Parse(p).Ok? ==> forall k :: 0 <= k < |Parse(p).value| ==>
      var prefix := ModulePrefixes(p.keys)[k];
      var m := Parse(p).value[k];
      m.key == GetProperty(p, prefix + ".key")
      && m.description == GetProperty(p, prefix + ".description")
      && m.dependencies == Split(p.table[prefix + ".dependencies"], ' ')
  {
    var prefixes := ModulePrefixes(p.keys);
    BuildAllShape(p, prefixes);
    if !Parse(p).Ok? {
      var k :| 0 <= k < |prefixes| && Record(p, prefixes[k]).None?;
      assert prefixes[k] + ".dependencies" !in p.table;
    } else {
      forall k | 0 <= k < |prefixes| ensures prefixes[k] + ".dependencies" in p.table {
        assert Record(p, prefixes[k]).Some?;
      }
    }
  }

  /** A dependency list joined back with single spaces is the property's text. */
  lemma DependenciesJoinBack(deps: string)
    requires deps == [] || deps[|deps| - 1] != ' '
    ensures Split(deps, ' ') == Pieces(deps, ' ')
    ensures Join(Split(deps, ' '), ' ') == deps
  {
    if ' ' in deps {
      LastPieceNonEmpty(deps);
    } else {
      PiecesWithoutDelimiter(deps, ' ');
    }
    JoinPieces(deps, ' ');
  }

  /** Text that does not end with the delimiter has a non-empty last piece. */
  lemma {:induction false} LastPieceNonEmpty(s: string)
    requires |s| > 0 && s[|s| - 1] != ' '
    ensures var ps := Pieces(s, ' '); ps[|ps| - 1] != ""
    decreases |s|
  {
    if |s| > 1 {
      LastPieceNonEmpty(s[1..]);
    }
  }

  /** ModuleConfiguration.Module: a module's settings, filled in by setters. */
  class Module {
    var key: Option<string>
    var description: Option<string>
    var dependencies: Option<seq<string>>

    /** A new module reports no key, no description and an empty dependency array. */
    constructor ()
      ensures key.None? && description.None? && dependencies.None?
      ensures GetKey().None? && GetDescription().None? && GetDependences() == []
    {
      key, description, dependencies := None, None, None;
    }

    /** `getKey()`: the key last set, or null. */
    function GetKey(): (r: Option<string>)
      reads this
      ensures r == key
    {
      key
    }

    method SetKey(key: Option<string>)
      modifies this
      ensures this.key == key && description == old(description) && dependencies == old(dependencies)
      ensures GetKey() == key
    {
      this.key := key;
    }

    /** `getDescription()`: the description last set, or null. */
    function GetDescription(): (r: Option<string>)
      reads this
      ensures r == description
    {
      description
    }

    method SetDescription(description: Option<string>)
      modifies this
      ensures this.description == description && key == old(key) && dependencies == old(dependencies)
      ensures GetDescription() == description
    {
      this.description := description;
    }

    /** `setDependences(array)`: stores the pieces as a list. */
    method SetDependences(dependencies: seq<string>)
      modifies this
      ensures this.dependencies == Some(dependencies) && key == old(key) && description == old(description)
      ensures GetDependences() == dependencies
    {
      this.dependencies := Some(dependencies);
    }

    /** `getDependences()`: the stored pieces, or none when they were never set. */
    function GetDependences(): (r: seq<string>)
      reads this
      ensures dependencies.Some? ==> r == dependencies.value
      ensures dependencies.None? ==> r == []
    {
      if dependencies.Some? then dependencies.value else []
    }
  }

  /** What a module object reports through its getters. */
  function Snapshot(m: Module): ModuleRecord
    reads m
  {
    ModuleRecord(m.GetKey(), m.GetDescription(), m.GetDependences())
  }

  /** The first loop of `parseConfiguration`: the prefix of every String key that names a module, in key order. */
  method CollectModuleKeys(properties: Properties) returns (moduleKeys: seq<string>)
    ensures moduleKeys == ModulePrefixes(properties.keys)
  {
    moduleKeys := [];
    for i := 0 to |properties.keys|
      invariant moduleKeys == ModulePrefixes(properties.keys[..i])
    {
      PrefixesStep(properties.keys, i);
      var objectKey := properties.keys[i];
      if objectKey.StringKey? {
        var key := objectKey.text;
        if StartsWith(key, "module.") && EndsWith(key, ".key") {
          moduleKeys := moduleKeys + [ModulePrefix(key)];
        }
      }
    }
    assert properties.keys[..|properties.keys|] == properties.keys;
  }

  /**
   * `parseConfiguration` as it is written: the `modules` field it appends to
   * is never initialised, so the first module either fails on missing
   * dependencies or on the append itself; with no module keys it returns the
   * null list, written None.
   */
  method ParseConfigurationAsWritten(properties: Properties) returns (r: Result<Option<seq<Module>>, ConfigError>)
    ensures r.Err? <==> ModulePrefixes(properties.keys) != []
    ensures r.Ok? ==> r.value.None?
  {
    var moduleKeys := CollectModuleKeys(properties);
    var modules: Option<seq<Module>> := None;
    if |moduleKeys| > 0 {
      var key := moduleKeys[0];
      var m := new Module();
      m.SetKey(GetProperty(properties, key + ".key"));
      m.SetDescription(GetProperty(properties, key + ".description"));
      var deps := GetProperty(properties, key + ".dependencies");
      if deps.None? {
        return Err(NullPointerException);
      }
      m.SetDependences(Split(deps.value, ' '));
      // `modules.add(module)` on the null field
      return Err(NullPointerException);
    }
    return Ok(modules);
  }

  /**
   * `parseConfiguration` with `modules` initialised to an empty list: one
   * module object per collected prefix, in order, whose getters report the
   * parsed record; the exception when some prefix lacks dependencies.
   */
  method ParseConfiguration(properties: Properties) returns (r: Result<seq<Module>, ConfigError>)
    ensures r.Ok? <==> Parse(properties).Ok?
    ensures r.Ok? ==> (|r.value| == |Parse(properties).value|
      && forall k :: 0 <= k < |r.value| ==> Snapshot(r.value[k]) == Parse(properties).value[k])
  {
    var moduleKeys := CollectModuleKeys(properties);
    var modules: seq<Module> := [];
    ghost var built: seq<ModuleRecord> := [];
    for i := 0 to |moduleKeys|
      invariant BuildAll(properties, moduleKeys[..i]) == Ok(built)
      invariant |modules| == |built|
      invariant forall k :: 0 <= k < |modules| ==> Snapshot(modules[k]) == built[k]
    {
      BuildAllStep(properties, moduleKeys, i);
      var m := BuildModule(properties, moduleKeys[i]);
      if m.None? {
        BuildAllErrPersists(properties, moduleKeys, i + 1);
        return Err(NullPointerException);
      }
      built := built + [Snapshot(m.value)];
      modules := modules + [m.value];
    }
    assert moduleKeys[..|moduleKeys|] == moduleKeys;
    return Ok(modules);
  }

  /**
   * One pass of the second loop of `parseConfiguration`: a new module with the
   * prefix's key, description and split dependencies, or None where the
   * dependencies are missing and `split` is called on null.
   */
  method BuildModule(properties: Properties, prefix: string) returns (r: Option<Module>)
    ensures r.Some? <==> Record(properties, prefix).Some?
    ensures r.Some? ==> fresh(r.value) && Snapshot(r.value) == Record(properties, prefix).value
  {
    var m := new Module();
    m.SetKey(GetProperty(properties, prefix + ".key"));
    m.SetDescription(GetProperty(properties, prefix + ".description"));
    var deps := GetProperty(properties, prefix + ".dependencies");
    if deps.None? {
      return None;
    }
    m.SetDependences(Split(deps.value, ' '));
    return Some(m);
  }

  /** The key that names the tools module, and the two that do not name a module. */
  lemma ToolsKeyNames()
    ensures IsModuleKey("module.tools.key") && ModulePrefix("module.tools.key") == "module.tools"
    ensures !IsModuleKey("module.tools.description") && !IsModuleKey("module.tools.dependencies")
  {
    assert "module.tools.key"[..7] == "module.";
    assert "module.tools.key"[12..] == ".key";
    var r := ModulePrefix("module.tools.key");
    assert r + ".key" == "module.tools" + ".key";
    assert r == (r + ".key")[..|r|];
    assert "module.tools.description"[20..] != ".key";
    assert "module.tools.dependencies"[21..] != ".key";
  }

  /** The keys of a configuration naming one module, `tools`, with all three of its properties. */
  const ToolsKeys: seq<Key> := [StringKey("module.tools.key"), StringKey("module.tools.description"), StringKey("module.tools.dependencies")]

  lemma ToolsPrefixes(keys: seq<Key>)
    requires keys == ToolsKeys
    ensures ModulePrefixes(keys) == ["module.tools"]
  {
    ToolsKeyNames();
    assert keys[..0] == [];
    PrefixesStep(keys, 0);
    PrefixesStep(keys, 1);
    PrefixesStep(keys, 2);
    assert keys[..3] == keys;
  }

  /**
   * A dependency value of two names separated by one space, such as
   * `ide java`, splits into those two names.
   */
  lemma SplitTwoDependencies(a: string, b: string)
    requires ' ' !in a && ' ' !in b && b != ""
    ensures Split(a + [' '] + b, ' ') == [a, b]
  {
    var s := a + [' '] + b;
    assert s[|a|] == ' ';
    PiecesAround(a, ' ', b);
    PiecesWithoutDelimiter(a, ' ');
    PiecesWithoutDelimiter(b, ' ');
    assert Pieces(s, ' ') == [a, b];
  }

  /**
   * A configuration whose keys name one module with its dependencies: the
   * corrected parse gives that one module, while the parse as written (whose
   * contract says it fails whenever a prefix is collected) fails. ToolsPrefixes
   * gives such keys.
   */
  lemma OneModuleConfiguration(p: Properties, prefix: string)
    requires ModulePrefixes(p.keys) == [prefix] && prefix + ".dependencies" in p.table
    ensures Parse(p).Ok? && |Parse(p).value| == 1
  {
    var one := [prefix];
    assert one[..|one| - 1] == [] && one[|one| - 1] == prefix;
    assert BuildAll(p, []) == Ok([]);
    assert Record(p, prefix).Some?;
    assert BuildAll(p, one) == Ok([] + [Record(p, prefix).value]);
  }
}
