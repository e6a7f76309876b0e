/** The configuration generator of the `concat` step: every input file of
    the step is fanned into one destination under the output directory. */
module ConcatConfig {
  import opened Seqs
  import opened Paths
  import opened Pipeline

  /** One entry of the `files` list of the generated configuration. */
  datatype FileMapping = FileMapping(dest: string, src: seq<string>)

  datatype Config = Config(files: seq<FileMapping>)

  /** The input `f` under the first directory of `dirs`, in list order, where
      it exists; nothing when it exists under none of them. */
  function FirstExisting(dirs: seq<string>, f: string, pathExists: string -> bool): seq<string>
    decreases |dirs|
  {
    if dirs == [] then []
    else if pathExists(Join([dirs[0], f])) then [Join([dirs[0], f])]
    else FirstExisting(dirs[1..], f, pathExists)
  }

  /** The sources one input file contributes. */
  function SourceStep(inDir: InDir, pathExists: string -> bool): string -> seq<string>
  {
    f => match inDir
         case Dir(d) => [Join([d, f])]
         case Dirs(ds) => FirstExisting(ds, f, pathExists)
  }

  /** The `src` list of the generated mapping. */
  function Sources(inDir: InDir, inFiles: seq<string>, pathExists: string -> bool): seq<string>
  {
    ConcatMap(inFiles, SourceStep(inDir, pathExists))
  }

  /** The configuration `createConfig` returns. It depends on the input
      directory, the input files, the output directory, the block's
      destination and the file system, and on nothing else: in particular
      not on whether the step is the last one of the flow. */
  function ConfigOf(inDir: InDir, inFiles: seq<string>, outDir: string, dest: string,
                    pathExists: string -> bool): Config
  {
    Config([FileMapping(Join([outDir, dest]), Sources(inDir, inFiles, pathExists))])
  }

  /** `createConfig(context, block)`, with `pathExists.sync` as
      `pathExists`. */
  method CreateConfig(context: Context, block: Block, pathExists: string -> bool) returns (cfg: Config)
    modifies context
    ensures cfg == ConfigOf(context.inDir, context.inFiles, context.outDir, block.dest, pathExists)
    ensures context.outFiles == [block.dest]
    ensures context.inDir == old(context.inDir) && context.inFiles == old(context.inFiles)
    ensures context.outDir == old(context.outDir) && context.last == old(context.last)
    ensures context.options == old(context.options)
  {
    var outfile := Join([context.outDir, block.dest]);
    var inDir, inFiles := context.inDir, context.inFiles;
    var src: seq<string> := [];
    ghost var step := SourceStep(inDir, pathExists);
    var i := 0;
    while i < |inFiles|
      invariant 0 <= i <= |inFiles|
      invariant src == ConcatMap(inFiles[..i], step)
      modifies {}
    {
      var found := SourcesOf(inDir, inFiles[i], pathExists);
      ConcatMapPrefix(inFiles, i, step);
      src := src + found;
      i := i + 1;
    }
    assert inFiles[..i] == inFiles;
    cfg := Config([FileMapping(outfile, src)]);
    context.outFiles := [block.dest];
  }

  /** The body of the `forEach` loop over the input files: the sources
      input `f` contributes. */
  method SourcesOf(inDir: InDir, f: string, pathExists: string -> bool) returns (found: seq<string>)
    ensures found == SourceStep(inDir, pathExists)(f)
  {
    match inDir {
      case Dirs(ds) =>
        found := ProbeDirs(ds, f, pathExists);
      case Dir(d) =>
        found := [Join([d, f])];
    }
  }

  /** The `every` loop over a list `inDir` for one input file: probe the
      directories in order and stop at the first where the file exists. */
  method ProbeDirs(dirs: seq<string>, f: string, pathExists: string -> bool) returns (found: seq<string>)
    ensures found == FirstExisting(dirs, f, pathExists)
  {
    found := [];
    var j := 0;
    var goOn := true;
    while j < |dirs| && goOn
      invariant 0 <= j <= |dirs|
      invariant goOn ==> found == [] && FirstExisting(dirs[j..], f, pathExists) == FirstExisting(dirs, f, pathExists)
      invariant !goOn ==> found == FirstExisting(dirs, f, pathExists)
      decreases |dirs| - j
    {
      var joinedPath := Join([dirs[j], f]);
      var joinedPathExists := pathExists(joinedPath);
      assert dirs[j..][1..] == dirs[j + 1..];
      if joinedPathExists {
        found := found + [joinedPath];
      }
      goOn := !joinedPathExists;
      j := j + 1;
    }
  }

  // ---------------------------------------------------------------------
  // Properties

  /** With a single input directory, every input file yields exactly its
      join with that directory, in order. */
  lemma SourcesOneDir(d: string, inFiles: seq<string>, pathExists: string -> bool)
    ensures |Sources(Dir(d), inFiles, pathExists)| == |inFiles|
    ensures forall i :: 0 <= i < |inFiles| ==> Sources(Dir(d), inFiles, pathExists)[i] == Join([d, inFiles[i]])
  {
    ConcatMapExactlyOne(inFiles, SourceStep(Dir(d), pathExists));
  }

  /** The probe of a list of directories yields at most one path, none
      exactly when the file exists under none of them, and otherwise its
      join with the first directory where it exists. */
  lemma {:induction false} FirstExistingSpec(dirs: seq<string>, f: string, pathExists: string -> bool)
    ensures |FirstExisting(dirs, f, pathExists)| <= 1
    ensures FirstExisting(dirs, f, pathExists) == [] <==>
            forall j :: 0 <= j < |dirs| ==> !pathExists(Join([dirs[j], f]))
    ensures forall k :: 0 <= k < |dirs| && pathExists(Join([dirs[k], f])) &&
                        (forall j :: 0 <= j < k ==> !pathExists(Join([dirs[j], f])))
                        ==> FirstExisting(dirs, f, pathExists) == [Join([dirs[k], f])]
    decreases |dirs|
  {
    if dirs != [] && !pathExists(Join([dirs[0], f])) {
      FirstExistingSpec(dirs[1..], f, pathExists);
      forall j | 0 < j < |dirs| ensures dirs[j] == dirs[1..][j - 1] { }
      forall k | 0 < k < |dirs| && pathExists(Join([dirs[k], f])) &&
                 (forall j :: 0 <= j < k ==> !pathExists(Join([dirs[j], f])))
        ensures FirstExisting(dirs, f, pathExists) == [Join([dirs[k], f])]
      {
        assert dirs[1..][k - 1] == dirs[k];
        forall j | 0 <= j < k - 1 ensures !pathExists(Join([dirs[1..][j], f])) {
          assert dirs[1..][j] == dirs[j + 1];
        }
      }
    }
  }

  /** With a list of input directories, each input file contributes at most
      one source. */
  lemma SourcesDirsAtMostOne(dirs: seq<string>, inFiles: seq<string>, pathExists: string -> bool)
    ensures |Sources(Dirs(dirs), inFiles, pathExists)| <= |inFiles|
  {
    var step := SourceStep(Dirs(dirs), pathExists);
    forall i | 0 <= i < |inFiles| ensures |step(inFiles[i])| <= 1 {
      FirstExistingSpec(dirs, inFiles[i], pathExists);
    }
    ConcatMapAtMostOne(inFiles, step);
  }

  /** The sources keep the order of the input files: those of a prefix of
      the inputs come first. */
  lemma SourcesInOrder(inDir: InDir, a: seq<string>, b: seq<string>, pathExists: string -> bool)
    ensures Sources(inDir, a + b, pathExists) == Sources(inDir, a, pathExists) + Sources(inDir, b, pathExists)
  {
    ConcatMapAppend(a, b, SourceStep(inDir, pathExists));
  }

  /** An input file that exists under none of the directories of a list
      contributes nothing: dropping it leaves the sources as they are. */
  lemma SourcesSkipMissing(dirs: seq<string>, a: seq<string>, f: string, b: seq<string>, pathExists: string -> bool)
    requires forall j :: 0 <= j < |dirs| ==> !pathExists(Join([dirs[j], f]))
    ensures Sources(Dirs(dirs), a + [f] + b, pathExists) == Sources(Dirs(dirs), a + b, pathExists)
  {
    var step := SourceStep(Dirs(dirs), pathExists);
    FirstExistingSpec(dirs, f, pathExists);
    ConcatMapAppend(a + [f], b, step);
    ConcatMapSnoc(a, f, step);
    ConcatMapAppend(a, b, step);
  }

  /** Every source is an input file joined with one of the directories,
      and with a list of directories it is one where the file exists. */
  lemma SourceOrigin(inDir: InDir, inFiles: seq<string>, pathExists: string -> bool, s: string)
    requires s in Sources(inDir, inFiles, pathExists)
    ensures exists i :: 0 <= i < |inFiles| &&
              match inDir
              case Dir(d) => s == Join([d, inFiles[i]])
              case Dirs(ds) => pathExists(s) && exists j :: 0 <= j < |ds| && s == Join([ds[j], inFiles[i]])
  {
    var step := SourceStep(inDir, pathExists);
    ConcatMapOrigin(inFiles, step, s);
    var i :| 0 <= i < |inFiles| && s in step(inFiles[i]);
    match inDir {
      case Dir(d) =>
      case Dirs(ds) =>
        FirstExistingOrigin(ds, inFiles[i], pathExists, s);
    }
  }

  lemma {:induction false} FirstExistingOrigin(dirs: seq<string>, f: string, pathExists: string -> bool, s: string)
    requires s in FirstExisting(dirs, f, pathExists)
    ensures pathExists(s) && exists j :: 0 <= j < |dirs| && s == Join([dirs[j], f])
    decreases |dirs|
  {
    if !pathExists(Join([dirs[0], f])) {
      FirstExistingOrigin(dirs[1..], f, pathExists, s);
      var j :| 0 <= j < |dirs[1..]| && s == Join([dirs[1..][j], f]);
      assert dirs[1..][j] == dirs[j + 1];
    }
  }
}
