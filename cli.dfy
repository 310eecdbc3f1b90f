/** The command-line entry point (src/index.tsx): choosing `DEBUG` from the
    `--debug` option, choosing and checking the working directory, the
    version the CLI reports, and the `@/` import alias the Bun runtime is
    taught once per process. The file system and path arithmetic are
    parameters. */
module Cli {
  import opened Wrappers
  import opened Text
  import opened Json

  // ---------------------------------------------------------------------------
  // DEBUG

  /** The `--debug` option as the argument parser hands it over: absent, a
      boolean (`--debug` alone is `true`), or the namespaces given. */
  datatype DebugOption = Absent | Flag(on: bool) | Namespaces(text: string)

  const DefaultDebug: string := "lazyvercel*"

  /** `String(debug)`. */
  function DebugString(debug: DebugOption): string {
    match debug
    case Absent => "undefined"
    case Flag(on) => if on then "true" else "false"
    case Namespaces(text) => text
  }

  /** The value `setDebugEnv` gives `DEBUG`, or None when it leaves `DEBUG`
      as it was. Whatever is set is never blank and never padded with
      whitespace. */
  function DebugValue(debug: DebugOption): (r: Option<string>)
    ensures r.None? <==> debug.Absent?
    ensures debug == Flag(true) ==> r == Some(DefaultDebug)
    ensures debug == Flag(false) ==> r == Some("false")
    ensures debug.Namespaces? && Trim(debug.text) != [] ==> r == Some(Trim(debug.text))
    ensures debug.Namespaces? && Trim(debug.text) == [] ==> r == Some(DefaultDebug)
    ensures r.Some? ==> |r.value| > 0 && !IsWhitespace(r.value[0]) && !IsWhitespace(r.value[|r.value| - 1])
  {
    if debug.Absent? then None
    else if debug == Flag(true) then Some(DefaultDebug)
    else
      var raw := Trim(DebugString(debug));
      TrimSpec(DebugString(debug));
      TrimKeepsTrimmed("false");
      if |raw| == 0 then Some(DefaultDebug) else Some(raw)
  }

  /** Passing the chosen `DEBUG` value back as `--debug` chooses it again. */
  lemma DebugValueStable(debug: DebugOption)
    requires DebugValue(debug).Some?
    ensures DebugValue(Namespaces(DebugValue(debug).value)) == DebugValue(debug)
  {
    TrimKeepsTrimmed(DebugValue(debug).value);
  }

  // ---------------------------------------------------------------------------
  // Working directory

  /** What the CLI asks of the file system: `path.resolve`, `fs.existsSync`
      and `fs.statSync(p).isDirectory()`. */
  datatype FileSystem = FileSystem(resolve: string -> string, pathExists: string -> bool, isDirectory: string -> bool)

  /** `resolveCwd`'s outcome: no directory requested, the directory to
      change to, or the message of the error it throws. */
  datatype CwdOutcome = NoCwd | Cwd(path: string) | Failure(message: string)

  /** `cwdFlag ?? cwdArg`. */
  function RequestedCwd(cwdArg: Option<string>, cwdFlag: Option<string>): Option<string> {
    if cwdFlag.Some? then cwdFlag else cwdArg
  }

  /** `resolveCwd`: the requested directory (the flag before the positional
      argument; an empty one counts as none), resolved, when it exists and
      is a directory. */
  function ResolveCwd(cwdArg: Option<string>, cwdFlag: Option<string>, fs: FileSystem): (r: CwdOutcome)
    ensures r.Cwd? ==> fs.pathExists(r.path) && fs.isDirectory(r.path)
    ensures r.NoCwd? <==> RequestedCwd(cwdArg, cwdFlag).None? || RequestedCwd(cwdArg, cwdFlag).value == ""
    ensures RequestedCwd(cwdArg, cwdFlag).Some? && RequestedCwd(cwdArg, cwdFlag).value != "" ==>
              var resolved := fs.resolve(RequestedCwd(cwdArg, cwdFlag).value);
              && (!fs.pathExists(resolved) ==> r == Failure("Directory does not exist: " + resolved))
              && (fs.pathExists(resolved) && !fs.isDirectory(resolved) ==> r == Failure("Not a directory: " + resolved))
              && (fs.pathExists(resolved) && fs.isDirectory(resolved) ==> r == Cwd(resolved))
  {
    var cwd := RequestedCwd(cwdArg, cwdFlag);
    if cwd.None? || cwd.value == "" then NoCwd
    else
      var resolved := fs.resolve(cwd.value);
      if !fs.pathExists(resolved) then Failure("Directory does not exist: " + resolved)
      else if !fs.isDirectory(resolved) then Failure("Not a directory: " + resolved)
      else Cwd(resolved)
  }

  /** A given `--cwd` flag decides alone: the positional argument is then
      never looked at. */
  lemma FlagTakesPrecedence(cwdArg: Option<string>, flag: string, fs: FileSystem)
    ensures ResolveCwd(cwdArg, Some(flag), fs) == ResolveCwd(None, Some(flag), fs)
    ensures ResolveCwd(cwdArg, Some(flag), fs) == ResolveCwd(Some(flag), None, fs)
  {
  }

  /** The process state the command's action touches. */
  class Process {
    var debugEnv: Option<string>
    var cwd: string

    constructor (debugEnv: Option<string>, cwd: string)
      ensures this.debugEnv == debugEnv && this.cwd == cwd
    {
      this.debugEnv := debugEnv;
      this.cwd := cwd;
    }

    /** `setDebugEnv`. */
    method SetDebugEnv(debug: DebugOption)
      modifies this
      ensures debugEnv == (if debug.Absent? then old(debugEnv) else DebugValue(debug))
      ensures cwd == old(cwd)
    {
      var value := DebugValue(debug);
      if value.Some? {
        debugEnv := value;
      }
    }

    /** The command's action up to starting the UI: set `DEBUG`, resolve the
        directory and change into it. A failure is the message the CLI
        prints before exiting with status 1; the directory is then
        unchanged. */
    method Launch(cwdArg: Option<string>, cwdFlag: Option<string>, debug: DebugOption, fs: FileSystem)
      returns (failure: Option<string>)
      modifies this
      ensures debugEnv == (if debug.Absent? then old(debugEnv) else DebugValue(debug))
      ensures failure.Some? <==> ResolveCwd(cwdArg, cwdFlag, fs).Failure?
      ensures failure.Some? ==> failure.value == ResolveCwd(cwdArg, cwdFlag, fs).message
      ensures cwd == (if ResolveCwd(cwdArg, cwdFlag, fs).Cwd? then ResolveCwd(cwdArg, cwdFlag, fs).path else old(cwd))
    {
      SetDebugEnv(debug);
      var outcome := ResolveCwd(cwdArg, cwdFlag, fs);
      match outcome {
        case Failure(message) =>
          return Some(message);
        case Cwd(path) =>
          cwd := path;
        case NoCwd =>
      }
      failure := None;
    }
  }

  // ---------------------------------------------------------------------------
  // Version

  const FallbackVersion: Json := JStr("0.0.0")

  /** `readPackageVersion`, given what parsing `../package.json` produced
      (None when reading or parsing threw): its `version`, unless that is
      missing or `null`, and `'0.0.0'` otherwise, also when the parsed value
      is `null` and reading `.version` throws. */
  function ReadPackageVersion(pkg: Option<Json>): (r: Json)
    ensures r != JNull
    ensures pkg.Some? && pkg.value.Get("version").Some? && pkg.value.Get("version").value != JNull ==>
              r == pkg.value.Get("version").value
    ensures r == FallbackVersion || (pkg.Some? && pkg.value.Get("version") == Some(r))
  {
    if pkg.None? then FallbackVersion
    else
      match pkg.value.Get("version")
      case Some(v) => if v == JNull then FallbackVersion else v
      case None => FallbackVersion
  }

  // ---------------------------------------------------------------------------
  // Import alias

  const AliasPrefix: string := "@/"

  /** What the resolver asks of the runtime: `path.join` and `fs.existsSync`. */
  datatype PathOps = PathOps(join: seq<string> -> string, pathExists: string -> bool)

  /** The `onResolve` rule for `@/` imports, with the directory of the built
      entry point as root: `<root>/<x>.js` when it exists, else
      `<root>/<x>/index.js` when that exists, else `<root>/<x>.js`. Paths
      without the prefix are not handed to the rule (None). */
  function ResolveAlias(importPath: string, distRoot: string, ops: PathOps): (r: Option<string>)
    ensures r.Some? <==> StartsWith(importPath, AliasPrefix)
    ensures r.Some? ==>
              var subpath := importPath[|AliasPrefix|..];
              var direct := ops.join([distRoot, subpath + ".js"]);
              var index := ops.join([distRoot, subpath, "index.js"]);
              && (r.value == direct || r.value == index)
              && (ops.pathExists(direct) ==> r.value == direct)
              && (r.value != direct ==> ops.pathExists(index))
              && (!ops.pathExists(direct) && ops.pathExists(index) ==> r.value == index)
  {
    if !StartsWith(importPath, AliasPrefix) then None
    else
      var subpath := importPath[|AliasPrefix|..];
      var direct := ops.join([distRoot, subpath + ".js"]);
      if ops.pathExists(direct) then Some(direct)
      else
        var index := ops.join([distRoot, subpath, "index.js"]);
        if ops.pathExists(index) then Some(index) else Some(direct)
  }

  const PluginName: string := "lazyvercel-tsconfig-paths"

  /** The runtime state `registerPathAliases` consults and changes: whether
      Bun's plugin API is there, the process-wide registration flag, and the
      plugins registered so far. */
  class Runtime {
    const hasPluginApi: bool
    var aliasesRegistered: bool
    var plugins: seq<string>

    constructor (hasPluginApi: bool)
      ensures this.hasPluginApi == hasPluginApi && !aliasesRegistered && plugins == []
    {
      this.hasPluginApi := hasPluginApi;
      aliasesRegistered := false;
      plugins := [];
    }

    /** `registerPathAliases`: registers the alias plugin once, and never
        without the plugin API. */
    method RegisterPathAliases()
      modifies this
      ensures !hasPluginApi || old(aliasesRegistered) ==>
                aliasesRegistered == old(aliasesRegistered) && plugins == old(plugins)
      ensures hasPluginApi && !old(aliasesRegistered) ==>
                aliasesRegistered && plugins == old(plugins) + [PluginName]
    {
      if !hasPluginApi {
        return;
      }
      if aliasesRegistered {
        return;
      }
      aliasesRegistered := true;
      plugins := plugins + [PluginName];
    }

    /** However often the entry point runs, the plugin is registered at
        most once. */
    method RegisterRepeatedly(times: nat)
      modifies this
      requires !aliasesRegistered && plugins == []
      ensures plugins == (if hasPluginApi && times > 0 then [PluginName] else [])
    {
      var k := 0;
      while k < times
        invariant 0 <= k <= times
        invariant aliasesRegistered <==> hasPluginApi && k > 0
        invariant plugins == (if aliasesRegistered then [PluginName] else [])
      {
        RegisterPathAliases();
        k := k + 1;
      }
    }
  }
}
