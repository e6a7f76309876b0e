/** The state the step configuration generators share: the pipeline
    context one step of a flow is run with, and the block of the HTML
    file that the flow is processing. */
module Pipeline {
  import opened Wrappers

  /** Where a step reads its input files: one directory, or a list of
      directories to probe in order. */
  datatype InDir = Dir(path: string) | Dirs(paths: seq<string>)

  /** The options object of a target: field names to their values. A
      missing or empty value is falsy. */
  type Fields = map<string, string>

  /** One target of a task in the Grunt configuration: its `options`
      object, which may be absent, and its other fields. */
  datatype Target = Target(options: Option<Fields>, rest: Fields)

  /** The `requirejs` settings of a block: output name, base URL and main
      module name. */
  datatype RequirejsSettings = RequirejsSettings(dest: string, baseUrl: string, name: string)

  /** A build block: its destination, and its `requirejs` settings when
      the block loads RequireJS with a `data-main`. */
  datatype Block = Block(dest: string, requirejs: Option<RequirejsSettings>)

  /** The context handed from step to step. A generator reads `inDir`,
      `inFiles` and `outDir`, writes the files it produces into
      `outFiles`, and may update the user's targets for its task in
      `options` (no entry at all when the user configured none). */
  class Context {
    var inDir: InDir
    var inFiles: seq<string>
    var outDir: string
    var outFiles: seq<string>
    var last: bool
    var options: map<string, Target>

    constructor(inDir: InDir, inFiles: seq<string>, outDir: string, last: bool, options: map<string, Target>)
      ensures this.inDir == inDir && this.inFiles == inFiles && this.outDir == outDir
      ensures this.outFiles == [] && this.last == last && this.options == options
    {
      this.inDir := inDir;
      this.inFiles := inFiles;
      this.outDir := outDir;
      this.outFiles := [];
      this.last := last;
      this.options := options;
    }
  }
}
