/** The configuration generator of the `requirejs` step: it computes the
    r.js options of a block and either fills in the targets the user
    configured or, when there are none, makes a `default` target. */
module RequirejsConfig {
  import opened Wrappers
  import opened Seqs
  import opened Paths
  import opened Pipeline

  /** `path.join` rejects a list of directories where it expects a
      string. */
  datatype ConfigError = InDirNotAString(dirs: seq<string>)

  /** The four options the step computes and fills in. */
  const OptionKeys: set<string> := {"name", "out", "baseUrl", "mainConfigFile"}

  /** A field of an options object is truthy when it is set to a non-empty
      value. */
  predicate Truthy(fields: Fields, key: string)
  {
    key in fields && fields[key] != ""
  }

  /** `mainConfigFile`: the main module under the base URL, with `.js`
      appended unless the joined path already contains `.js` somewhere. */
  function MainConfigFile(inDir: string, s: RequirejsSettings): (r: string)
    ensures Contains(r, ".js")
    ensures r == Join([inDir, s.baseUrl, s.name]) || r == Join([inDir, s.baseUrl, s.name]) + ".js"
    ensures r == Join([inDir, s.baseUrl, s.name]) <==> Contains(Join([inDir, s.baseUrl, s.name]), ".js")
  {
    var cfgFile := Join([inDir, s.baseUrl, s.name]);
    if Contains(cfgFile, ".js") then cfgFile
    else
      ContainsSuffix(cfgFile, ".js");
      cfgFile + ".js"
  }

  /** The options computed from the block and the context. */
  function Computed(inDir: string, outDir: string, s: RequirejsSettings): (options: Fields)
    ensures options.Keys == OptionKeys
    ensures options["name"] == s.name
    ensures options["out"] == Join([outDir, s.dest])
    ensures options["baseUrl"] == Join([inDir, s.baseUrl])
    ensures options["mainConfigFile"] == MainConfigFile(inDir, s)
  {
    map["name" := s.name, "out" := Join([outDir, s.dest]),
        "baseUrl" := Join([inDir, s.baseUrl]), "mainConfigFile" := MainConfigFile(inDir, s)]
  }

  /** `opts.key = opts.key || options.key`. */
  function Default(opts: Fields, options: Fields, key: string): Fields
    requires key in options
  {
    opts[key := if Truthy(opts, key) then opts[key] else options[key]]
  }

  /** An existing options object once the four computed options are filled
      in: a truthy value is kept, any other is replaced by the computed one;
      all other fields stay as they are. */
  function FillOptions(opts: Fields, options: Fields): (r: Fields)
    requires OptionKeys <= options.Keys
    ensures r.Keys == opts.Keys + OptionKeys
    ensures forall k :: k in OptionKeys ==> r[k] == if Truthy(opts, k) then opts[k] else options[k]
    ensures forall k :: k in opts && k !in OptionKeys ==> r[k] == opts[k]
  {
    var o := Default(opts, options, "name");
    var o := Default(o, options, "out");
    var o := Default(o, options, "baseUrl");
    Default(o, options, "mainConfigFile")
  }

  /** A target after the step has seen it: its options filled in, or the
      computed options when it had none. */
  function FillTarget(t: Target, options: Fields): (r: Target)
    requires OptionKeys <= options.Keys
    ensures r.rest == t.rest && r.options.Some?
    ensures t.options.None? ==> r.options.value == options
  {
    match t.options
    case Some(opts) => t.(options := Some(FillOptions(opts, options)))
    case None => t.(options := Some(options))
  }

  /** All targets after the step has seen them. */
  function FillTargets(targets: map<string, Target>, options: Fields): (r: map<string, Target>)
    requires OptionKeys <= options.Keys
    ensures r.Keys == targets.Keys
    ensures forall k :: k in targets ==> r[k] == FillTarget(targets[k], options)
  {
    map k | k in targets :: FillTarget(targets[k], options)
  }

  /** The configuration returned for a block with `requirejs` settings: a
      `default` target with the computed options when the user configured
      no target, and nothing otherwise (the user's targets are updated in
      place instead). */
  function ResultOf(targets: map<string, Target>, options: Fields): map<string, Target>
  {
    if targets == map[] then map["default" := Target(Some(options), map[])] else map[]
  }

  /** `createConfig(context, block)`. The user's targets are
      `context.options`; a missing one is an empty map. */
  method CreateConfig(context: Context, block: Block) returns (r: Result<map<string, Target>, ConfigError>)
    modifies context
    ensures context.outFiles == []
    ensures block.requirejs.None? ==> r == Success(map[]) && context.options == old(context.options)
    ensures block.requirejs.Some? && context.inDir.Dirs? ==>
              r == Failure(InDirNotAString(context.inDir.paths)) && context.options == old(context.options)
    ensures block.requirejs.Some? && context.inDir.Dir? ==>
              var options := Computed(context.inDir.path, context.outDir, block.requirejs.value);
              r == Success(ResultOf(old(context.options), options)) &&
              context.options == FillTargets(old(context.options), options)
    ensures context.inDir == old(context.inDir) && context.inFiles == old(context.inFiles)
    ensures context.outDir == old(context.outDir) && context.last == old(context.last)
  {
    context.outFiles := [];
    if block.requirejs.None? {
      return Success(map[]);
    }
    var settings := block.requirejs.value;
    if context.inDir.Dirs? {
      return Failure(InDirNotAString(context.inDir.paths));
    }
    var inDir := context.inDir.path;
    var baseUrl := Join([inDir, settings.baseUrl]);
    var out := Join([context.outDir, settings.dest]);
    var cfgFile := Join([inDir, settings.baseUrl, settings.name]);
    if !Contains(cfgFile, ".js") {
      cfgFile := cfgFile + ".js";
    }
    var options := map["name" := settings.name, "out" := out, "baseUrl" := baseUrl, "mainConfigFile" := cfgFile];
    assert options == Computed(inDir, context.outDir, settings);
    var hasTasks := FillTasks(context, options);
    if !hasTasks {
      return Success(map["default" := Target(Some(options), map[])]);
    }
    return Success(map[]);
  }

  /** The `for ... in` loop over the user's targets, which updates each of
      them in place; the result is the `hasTasks` flag. */
  method FillTasks(context: Context, options: Fields) returns (hasTasks: bool)
    requires OptionKeys <= options.Keys
    modifies context
    ensures context.options == FillTargets(old(context.options), options)
    ensures hasTasks <==> old(context.options) != map[]
    ensures context.inDir == old(context.inDir) && context.inFiles == old(context.inFiles)
    ensures context.outDir == old(context.outDir) && context.last == old(context.last)
    ensures context.outFiles == old(context.outFiles)
  {
    var requirejs := context.options;
    var targets := requirejs;
    hasTasks := false;
    var todo := requirejs.Keys;
    while todo != {}
      invariant todo <= requirejs.Keys
      invariant targets.Keys == requirejs.Keys
      invariant forall k :: k in requirejs ==>
                  targets[k] == if k in todo then requirejs[k] else FillTarget(requirejs[k], options)
      invariant hasTasks <==> todo != requirejs.Keys
      decreases todo
      modifies {}
    {
      var i :| i in todo;
      hasTasks := true;
      var task := FillTask(targets[i], options);
      targets := targets[i := task];
      todo := todo - {i};
    }
    assert targets == FillTargets(requirejs, options);
    context.options := targets;
    if requirejs != map[] {
      ghost var k :| k in requirejs;
    }
  }

  /** The body of the loop for one target: fill in its options object, or
      give it the computed one when it has none. */
  method FillTask(task: Target, options: Fields) returns (r: Target)
    requires OptionKeys <= options.Keys
    ensures r == FillTarget(task, options)
  {
    if task.options.Some? {
      var opts := task.options.value;
      opts := opts["name" := if Truthy(opts, "name") then opts["name"] else options["name"]];
      opts := opts["out" := if Truthy(opts, "out") then opts["out"] else options["out"]];
      opts := opts["baseUrl" := if Truthy(opts, "baseUrl") then opts["baseUrl"] else options["baseUrl"]];
      opts := opts["mainConfigFile" := if Truthy(opts, "mainConfigFile") then opts["mainConfigFile"]
                                        else options["mainConfigFile"]];
      r := task.(options := Some(opts));
    } else {
      r := task.(options := Some(options));
    }
  }

  // ---------------------------------------------------------------------
  // Properties

  /** Filling in a second time changes nothing: the step can be run again
      over targets it has already completed. */
  lemma FillTargetIdempotent(t: Target, options: Fields)
    requires OptionKeys <= options.Keys
    ensures FillTarget(FillTarget(t, options), options) == FillTarget(t, options)
  {
    var once := FillTarget(t, options).options.value;
    var twice := FillOptions(once, options);
    assert OptionKeys <= once.Keys by {
      if t.options.Some? {
        assert once.Keys == t.options.value.Keys + OptionKeys;
      }
    }
    forall k | k in OptionKeys && !Truthy(once, k) ensures once[k] == options[k] {
      if t.options.Some? {
        assert !Truthy(t.options.value, k);
      }
    }
    assert twice.Keys == once.Keys;
    forall k | k in once ensures twice[k] == once[k] { }
    assert twice == once;
  }

  /** After the step every target has all four options set, and each is
      the user's own value when that was truthy. */
  lemma FillTargetsComplete(targets: map<string, Target>, options: Fields)
    requires OptionKeys <= options.Keys
    ensures forall name, k :: name in targets && k in OptionKeys ==>
              k in FillTargets(targets, options)[name].options.value
    ensures forall name, k :: name in targets && targets[name].options.Some? && Truthy(targets[name].options.value, k) ==>
              FillTargets(targets, options)[name].options.value[k] == targets[name].options.value[k]
  {
    forall name, k | name in targets && k in OptionKeys
      ensures k in FillTargets(targets, options)[name].options.value
    {
      var t := targets[name];
      if t.options.Some? {
        assert FillTarget(t, options).options.value.Keys == t.options.value.Keys + OptionKeys;
      }
    }
  }

  /** Exactly one of the two outcomes: a `default` target when the user
      configured none, and an empty configuration when there are targets. */
  lemma ResultOfSpec(targets: map<string, Target>, options: Fields)
    ensures targets == map[] ==> ResultOf(targets, options).Keys == {"default"} &&
                                 ResultOf(targets, options)["default"].options == Some(options)
    ensures targets != map[] <==> ResultOf(targets, options) == map[]
  {
    if targets == map[] {
      assert "default" in ResultOf(targets, options);
    }
  }
}
