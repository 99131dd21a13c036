/**
 * The `dcj` command as a whole: which compose runner is used, which template is
 * picked, which of dcj's modes an invocation selects, and, in the normal mode,
 * the plan that loads the env file, renders the template and builds the compose
 * command line.
 *
 * The outside world (files on disk, `PATH` lookups, whether Jinja can render a
 * template against an environment) is a `World` value, and one invocation is a
 * function from the command line, the process environment and the world to a
 * `Run`: the resulting environment, the file written, and how the run ends.
 */
module Dcj {
  import opened Wrappers
  import Args
  import DotEnv

  /** Template file names, in the order they are looked for. */
  const TemplateNames: seq<string> :=
    ["docker-compose.jinja.yml", "docker-compose.jinja", "docker-compose.j2.yml", "docker-compose.j2"]

  /** Where the rendered YAML goes when `--yml-file` does not say otherwise. */
  const DefaultOutputYml: string := "docker-compose.yml"

  /** The env file loaded when `--env-file` does not say otherwise. */
  const DefaultEnvFile: string := ".env"

  const NoRunnerMessage: string :=
    "Neither 'docker' (with 'compose' subcommand) nor 'docker-compose' was found in PATH."
  const DumpWithoutTemplateMessage: string := "--dump requested but no template was found."
  const RenderFailedMessage: string := "Template render failed"

  // ---------------------------------------------------------------------------
  // Compose runner
  // ---------------------------------------------------------------------------

  /** The argv prefix that runs compose, and the name shown to the user. */
  datatype Runner = Runner(argv: seq<string>, display: string)

  /** `which_compose`, given what `PATH` lookups of `docker` and `docker-compose`
      found: the Docker CLI v2 plugin is preferred over the legacy binary, and
      finding neither is an error. */
  function WhichCompose(docker: Option<string>, legacy: Option<string>): (r: Result<Runner>)
    ensures r.Ok? <==> docker.Some? || legacy.Some?
    ensures docker.Some? ==> r.Ok? && r.value.argv == [docker.value, "compose"]
    ensures docker.None? && legacy.Some? ==> r.Ok? && r.value.argv == [legacy.value]
    ensures r.Ok? ==> r.value.argv != [] && Some(r.value.argv[0]) in {docker, legacy}
    ensures r.Err? ==> r.error == NoRunnerMessage
  {
    if docker.Some? then Ok(Runner([docker.value, "compose"], "docker compose"))
    else if legacy.Some? then Ok(Runner([legacy.value], "docker-compose"))
    else Err(NoRunnerMessage)
  }

  // ---------------------------------------------------------------------------
  // Template discovery
  // ---------------------------------------------------------------------------

  /** Index of the first name in `names` that is an existing file, or `|names|`. */
  function FirstExisting(names: seq<string>, existing: set<string>): (k: nat)
    ensures k <= |names|
    ensures k < |names| ==> names[k] in existing
    ensures forall j :: 0 <= j < k ==> names[j] !in existing
    decreases |names|
  {
    if names == [] then 0
    else if names[0] in existing then 0
    else 1 + FirstExisting(names[1..], existing)
  }

  /** `find_first_template`: the first template name, in the fixed order, that is an
      existing file. */
  function FindFirstTemplate(existing: set<string>): (r: Option<string>)
    ensures r.None? <==> forall i :: 0 <= i < |TemplateNames| ==> TemplateNames[i] !in existing
    ensures r.Some? ==> r.value in existing && r.value in TemplateNames
    ensures r.Some? ==> exists k :: 0 <= k < |TemplateNames| && TemplateNames[k] == r.value &&
                          forall j :: 0 <= j < k ==> TemplateNames[j] !in existing
  {
    var k := FirstExisting(TemplateNames, existing);
    if k < |TemplateNames| then Some(TemplateNames[k]) else None
  }

  /** Whichever other templates exist, `docker-compose.jinja.yml` wins when present,
      and a `.j2` template is only picked when no `.jinja` one exists. */
  lemma TemplatePreference(existing: set<string>)
    ensures "docker-compose.jinja.yml" in existing ==> FindFirstTemplate(existing) == Some("docker-compose.jinja.yml")
    ensures FindFirstTemplate(existing) in {Some("docker-compose.j2.yml"), Some("docker-compose.j2")} ==>
              "docker-compose.jinja.yml" !in existing && "docker-compose.jinja" !in existing
  {
    var r := FindFirstTemplate(existing);
    if r.Some? {
      var k :| 0 <= k < |TemplateNames| && TemplateNames[k] == r.value &&
               forall j :: 0 <= j < k ==> TemplateNames[j] !in existing;
      if r.value in {"docker-compose.j2.yml", "docker-compose.j2"} {
        assert k >= 2;
        assert TemplateNames[0] !in existing && TemplateNames[1] !in existing;
      }
    }
  }

  // ---------------------------------------------------------------------------
  // Mode selection
  // ---------------------------------------------------------------------------

  /** `[t for t in s if t != x]`. */
  function RemoveAll(s: seq<string>, x: string): (r: seq<string>)
    ensures x !in r
    ensures multiset(r) == multiset(s)[x := 0]
    decreases |s|
  {
    if s == [] then []
    else
      assert s == [s[0]] + s[1..];
      if s[0] == x then RemoveAll(s[1..], x)
      else [s[0]] + RemoveAll(s[1..], x)
  }

  /** Filtering keeps order: filtering a concatenation concatenates the filtered parts. */
  lemma {:induction false} RemoveAllConcat(a: seq<string>, b: seq<string>, x: string)
    ensures RemoveAll(a + b, x) == RemoveAll(a, x) + RemoveAll(b, x)
    decreases |a|
  {
    if a == [] {
      assert a + b == b;
    } else {
      assert (a + b)[0] == a[0] && (a + b)[1..] == a[1..] + b;
      RemoveAllConcat(a[1..], b, x);
    }
  }

  /** A list without `x` comes through the filter unchanged. */
  lemma {:induction false} RemoveAllAbsent(s: seq<string>, x: string)
    requires x !in s
    ensures RemoveAll(s, x) == s
    decreases |s|
  {
    if s != [] {
      assert x !in s[1..];
      RemoveAllAbsent(s[1..], x);
    }
  }

  /** What an invocation of dcj does, decided before any argument is rewritten. */
  datatype Mode =
    | ComposeHelp(flag: string)   // a lone `-h`/`--help`, forwarded to compose
    | DcjHelp                     // `--jhelp`: print dcj's own usage
    | Debug(args: seq<string>)    // `--jdebug`: diagnostics on the rest of the arguments
    | Normal

  predicate IsLoneHelp(argv: seq<string>) {
    |argv| == 1 && (argv[0] == "-h" || argv[0] == "--help")
  }

  function SelectMode(argv: seq<string>): (m: Mode)
    ensures m.Debug? ==> "--jdebug" !in m.args
  {
    if IsLoneHelp(argv) then ComposeHelp(argv[0])
    else if "--jhelp" in argv then DcjHelp
    else if "--jdebug" in argv then Debug(RemoveAll(argv, "--jdebug"))
    else Normal
  }

  /** Mode priority: a lone help flag goes to compose; otherwise `--jhelp` anywhere
      beats `--jdebug` anywhere; the debug mode sees every other argument, in order;
      only a command line with none of these is rewritten and run. */
  lemma ModePriority(argv: seq<string>)
    ensures SelectMode(argv).ComposeHelp? <==> IsLoneHelp(argv)
    ensures SelectMode(argv).ComposeHelp? ==> SelectMode(argv).flag == argv[0]
    ensures SelectMode(argv) == DcjHelp <==> !IsLoneHelp(argv) && "--jhelp" in argv
    ensures SelectMode(argv).Debug? <==> "--jhelp" !in argv && "--jdebug" in argv
    ensures SelectMode(argv).Debug? ==>
              multiset(SelectMode(argv).args) == multiset(argv)[("--jdebug") := 0]
    ensures SelectMode(argv) == Normal <==>
              !IsLoneHelp(argv) && "--jhelp" !in argv && "--jdebug" !in argv
  {
  }

  /** `--jdebug` may stand anywhere: dropping it from the middle of a command line
      leaves the arguments on each side, in order. */
  lemma DebugKeepsOtherArguments(before: seq<string>, after: seq<string>)
    requires "--jhelp" !in before && "--jhelp" !in after
    requires "--jdebug" !in before && "--jdebug" !in after
    ensures SelectMode(before + ["--jdebug"] + after) == Debug(before + after)
  {
    var argv := before + ["--jdebug"] + after;
    assert "--jdebug" in argv && "--jhelp" !in argv;
    assert !IsLoneHelp(argv);
    RemoveAllConcat(before + ["--jdebug"], after, "--jdebug");
    RemoveAllConcat(before, ["--jdebug"], "--jdebug");
    RemoveAllAbsent(before, "--jdebug");
    RemoveAllAbsent(after, "--jdebug");
    assert RemoveAll(["--jdebug"], "--jdebug") == [];
    assert before + [] == before;
  }

  // ---------------------------------------------------------------------------
  // The normal run
  // ---------------------------------------------------------------------------

  /** What dcj sees of its surroundings: the regular files and their lines, the
      result of the `PATH` lookups, and whether a template renders against an
      environment. */
  datatype World = World(
    files: map<string, seq<string>>,
    docker: Option<string>,
    legacy: Option<string>,
    renders: (string, map<string, string>) -> bool)

  /** A template rendered to an output file. */
  datatype Rendering = Rendering(template: string, output: string)

  /** How an invocation ends. */
  datatype Outcome =
    | Exit(code: int, message: string)  // dcj stops with this status and message
    | ShowUsage                         // dcj's usage is printed; status 0
    | Diagnose(args: seq<string>)       // the debug report runs on these arguments
    | PrintRendered(template: string)   // the template is rendered to stdout; status 0
    | RunCompose(cmd: seq<string>)      // compose runs; its status is dcj's

  /** One invocation: the process environment afterwards, the YAML file written,
      and the outcome. */
  datatype Run = Run(env: map<string, string>, written: Option<Rendering>, outcome: Outcome)

  /** Python's `value or default` on an optional string: a missing or empty value
      falls back to the default. */
  function OrDefault(v: Option<string>, default: string): (r: string)
    ensures v.Some? && v.value != [] ==> r == v.value
    ensures v.None? || v.value == [] ==> r == default
  {
    if v.Some? && v.value != [] then v.value else default
  }

  /** `load_dotenv(path)` on the environment: a path that is not a regular file
      loads nothing. */
  function LoadEnv(path: string, env: map<string, string>, files: map<string, seq<string>>): (r: map<string, string>)
    ensures path !in files ==> r == env
    ensures forall k :: k in env ==> k in r && r[k] == env[k]
  {
    if path in files then
      DotEnv.LoadNeverOverwrites(files[path], env);
      DotEnv.LoadFrom(files[path], DotEnv.Loaded(env, [])).env
    else env
  }

  /** The compose arguments: `-f output` goes first when a template was rendered and
      the forwarded arguments name no compose file themselves. */
  function FinalArgs(forwarded: seq<string>, rendered: Option<string>): (r: seq<string>)
    ensures |forwarded| <= |r| && r[|r| - |forwarded|..] == forwarded
    ensures rendered.None? || "-f" in forwarded || "--file" in forwarded ==> r == forwarded
    ensures rendered.Some? ==> "-f" in r || "--file" in r
    ensures r == forwarded || (rendered.Some? && r == ["-f", rendered.value] + forwarded)
  {
    if rendered.Some? && "-f" !in forwarded && "--file" !in forwarded
    then ["-f", rendered.value] + forwarded
    else forwarded
  }

  /** Looks up the compose runner and runs it on `args`. */
  function Launch(env: map<string, string>, written: Option<Rendering>, args: seq<string>, w: World): Run {
    match WhichCompose(w.docker, w.legacy)
    case Ok(runner) => Run(env, written, RunCompose(runner.argv + args))
    case Err(msg) => Run(env, written, Exit(1, msg))
  }

  /** Steps 3 to 5 of `main`, once the arguments are rewritten and the env file is
      loaded: render, build the compose command and run it. None of these steps
      changes the environment. */
  function RenderAndRun(rw: Args.Rewritten, env: map<string, string>, w: World): (r: Run)
    ensures r.env == env
  {
    match FindFirstTemplate(w.files.Keys)
    case None =>
      if rw.custom.dump then Run(env, None, Exit(2, DumpWithoutTemplateMessage))
      else Launch(env, None, FinalArgs(rw.args, None), w)
    case Some(template) =>
      var output := OrDefault(rw.custom.ymlFile, DefaultOutputYml);
      if rw.custom.dump then
        Run(env, None, if w.renders(template, env) then PrintRendered(template) else Exit(1, RenderFailedMessage))
      else if !w.renders(template, env) then
        Run(env, None, Exit(1, RenderFailedMessage))
      else
        Launch(env, Some(Rendering(template, output)), FinalArgs(rw.args, Some(output)), w)
  }

  /** Steps 1 to 5 of `main`: rewrite, load the env file, render, build and run.
      A rewrite error stops the run before anything else happens; the environment
      only ever gains variables; compose runs only when a runner was found, and a
      file is written only for a successful rewrite without `--dump`. */
  function RunNormal(argv: seq<string>, env: map<string, string>, w: World): (r: Run)
    ensures Args.Rewrite(argv).Err? ==> r == Run(env, None, Exit(1, Args.Rewrite(argv).error))
    ensures forall k :: k in env ==> k in r.env && r.env[k] == env[k]
    ensures r.outcome.RunCompose? ==> WhichCompose(w.docker, w.legacy).Ok?
    ensures r.written.Some? ==> Args.Rewrite(argv).Ok? && !Args.Rewrite(argv).value.custom.dump
  {
    match Args.Rewrite(argv)
    case Err(msg) => Run(env, None, Exit(1, msg))
    case Ok(rw) => RenderAndRun(rw, LoadEnv(OrDefault(rw.custom.envFile, DefaultEnvFile), env, w.files), w)
  }

  /** `main(argv)`. Only the normal mode touches the environment or writes a file,
      and no mode changes a variable that was already set. */
  function Dcj(argv: seq<string>, env: map<string, string>, w: World): (r: Run)
    ensures SelectMode(argv) != Normal ==> r.env == env && r.written.None?
    ensures SelectMode(argv) == DcjHelp ==> r.outcome == ShowUsage
    ensures SelectMode(argv).Debug? ==> r.outcome == Diagnose(SelectMode(argv).args)
    ensures forall k :: k in env ==> k in r.env && r.env[k] == env[k]
    ensures r.outcome.RunCompose? ==> WhichCompose(w.docker, w.legacy).Ok?
  {
    match SelectMode(argv)
    case ComposeHelp(flag) =>
      (match WhichCompose(w.docker, w.legacy)
       case Ok(runner) => Run(env, None, RunCompose(runner.argv + [flag]))
       case Err(msg) => Run(env, None, Exit(1, msg)))
    case DcjHelp => Run(env, None, ShowUsage)
    case Debug(args) => Run(env, None, Diagnose(args))
    case Normal => RunNormal(argv, env, w)
  }

  // ---------------------------------------------------------------------------
  // Properties of a run
  // ---------------------------------------------------------------------------

  /** `--dump` never runs compose and never writes a file: without a template dcj
      exits with status 2, with one it prints the rendering (or exits with status 1
      when rendering fails). */
  lemma DumpNeverRunsCompose(argv: seq<string>, env: map<string, string>, w: World)
    requires SelectMode(argv) == Normal
    requires Args.Rewrite(argv).Ok? && Args.Rewrite(argv).value.custom.dump
    ensures var r := Dcj(argv, env, w);
      && !r.outcome.RunCompose? && r.written == None
      && (r.outcome == Exit(2, DumpWithoutTemplateMessage) <==> FindFirstTemplate(w.files.Keys).None?)
      && (r.outcome.PrintRendered? <==>
            FindFirstTemplate(w.files.Keys).Some? && w.renders(FindFirstTemplate(w.files.Keys).value, r.env))
  {
  }

  /** After loading, a launch runs the runner on the rewritten arguments, with
      `-f OUTPUT` in front when a template exists and they name no compose file. */
  lemma LaunchedCommand(rw: Args.Rewritten, env: map<string, string>, w: World)
    requires RenderAndRun(rw, env, w).outcome.RunCompose?
    ensures var t := FindFirstTemplate(w.files.Keys);
      && WhichCompose(w.docker, w.legacy).Ok?
      && !rw.custom.dump
      && RenderAndRun(rw, env, w).outcome.cmd ==
           WhichCompose(w.docker, w.legacy).value.argv +
           FinalArgs(rw.args, if t.Some? then Some(OrDefault(rw.custom.ymlFile, DefaultOutputYml)) else None)
  {
  }

  /** Helper: in normal mode with well-formed arguments, `Dcj` unfolds to loading
      the env file and then rendering and running. */
  lemma NormalRun(argv: seq<string>, env: map<string, string>, w: World)
    requires SelectMode(argv) == Normal
    requires Args.Rewrite(argv).Ok?
    ensures var rw := Args.Rewrite(argv).value;
      Dcj(argv, env, w) == RenderAndRun(rw, LoadEnv(OrDefault(rw.custom.envFile, DefaultEnvFile), env, w.files), w)
  {
  }

  /** When a `--yml-file` value is always forwarded as `-f`, the command run is the
      runner, then `-f` and the default output exactly when a template exists and no
      compose file is named, then the rewritten arguments. */
  lemma InjectedFile(rw: Args.Rewritten, env: map<string, string>, w: World)
    requires rw.custom.ymlFile.Some? ==> "-f" in rw.args
    requires RenderAndRun(rw, env, w).outcome.RunCompose?
    ensures var runner := WhichCompose(w.docker, w.legacy);
      var injects := FindFirstTemplate(w.files.Keys).Some? && "-f" !in rw.args && "--file" !in rw.args;
      && runner.Ok?
      && !rw.custom.dump
      && RenderAndRun(rw, env, w).outcome.cmd ==
           runner.value.argv + (if injects then ["-f", DefaultOutputYml] else []) + rw.args
  {
    LaunchedCommand(rw, env, w);
    var argvR := WhichCompose(w.docker, w.legacy).value.argv;
    var injects := FindFirstTemplate(w.files.Keys).Some? && "-f" !in rw.args && "--file" !in rw.args;
    if injects {
      assert OrDefault(rw.custom.ymlFile, DefaultOutputYml) == DefaultOutputYml;
      assert argvR + ["-f", DefaultOutputYml] + rw.args == argvR + (["-f", DefaultOutputYml] + rw.args);
    } else {
      assert argvR + [] + rw.args == argvR + rw.args;
    }
  }

  /** The compose command of a normal run: the runner, then `-f` and the output file
      exactly when a template was rendered and the rewritten arguments name no
      compose file, then the rewritten arguments in order. The injected file is
      always the default output: a `--yml-file` value already travels as `-f`. */
  lemma ComposeCommand(argv: seq<string>, env: map<string, string>, w: World)
    requires SelectMode(argv) == Normal
    requires Args.Rewrite(argv).Ok?
    requires Dcj(argv, env, w).outcome.RunCompose?
    ensures var rw := Args.Rewrite(argv).value;
      var runner := WhichCompose(w.docker, w.legacy);
      var injects := FindFirstTemplate(w.files.Keys).Some? && "-f" !in rw.args && "--file" !in rw.args;
      && runner.Ok?
      && !rw.custom.dump
      && Dcj(argv, env, w).outcome.cmd ==
           runner.value.argv + (if injects then ["-f", DefaultOutputYml] else []) + rw.args
  {
    var rw := Args.Rewrite(argv).value;
    NormalRun(argv, env, w);
    if rw.custom.ymlFile.Some? {
      Args.YmlFileImpliesDashF(argv);
    }
    InjectedFile(rw, LoadEnv(OrDefault(rw.custom.envFile, DefaultEnvFile), env, w.files), w);
  }

  /** The YAML file is written exactly when a template exists, it renders, and the
      run is not a dump; it goes to the `--yml-file` value, or the default when that
      is absent or empty. */
  lemma WrittenFile(argv: seq<string>, env: map<string, string>, w: World)
    requires SelectMode(argv) == Normal
    requires Args.Rewrite(argv).Ok?
    ensures var rw := Args.Rewrite(argv).value;
      var r := Dcj(argv, env, w);
      var t := FindFirstTemplate(w.files.Keys);
      && (r.written.Some? <==> t.Some? && !rw.custom.dump && w.renders(t.value, r.env))
      && (r.written.Some? ==> r.written.value == Rendering(t.value, OrDefault(rw.custom.ymlFile, DefaultOutputYml)))
  {
  }

  /** Without any of dcj's flags and without a template, the arguments reach compose
      untouched and in order. */
  lemma PlainArgumentsForwarded(argv: seq<string>, env: map<string, string>, w: World)
    requires SelectMode(argv) == Normal
    requires forall i :: 0 <= i < |argv| ==> Args.Classify(argv[i]) == Args.Plain
    requires FindFirstTemplate(w.files.Keys).None?
    requires WhichCompose(w.docker, w.legacy).Ok?
    ensures Dcj(argv, env, w).outcome == RunCompose(WhichCompose(w.docker, w.legacy).value.argv + argv)
    ensures Dcj(argv, env, w).env == LoadEnv(DefaultEnvFile, env, w.files)
  {
    Args.IdentityWithoutCustomFlags(argv);
  }

  /** A `--yml-file` or `--env-file` at the end of the command line stops dcj with
      status 1 before anything is loaded, rendered or run. */
  lemma MissingValueStopsEarly(us: seq<Args.Unit>, flag: string, env: map<string, string>, w: World)
    requires Args.WellFormed(us) && (flag == Args.YmlFlag || flag == Args.EnvFlag)
    requires SelectMode(Args.Tokens(us) + [flag]) == Normal
    ensures Dcj(Args.Tokens(us) + [flag], env, w) == Run(env, None, Exit(1, flag + " requires a value"))
  {
    Args.MissingValueAtEnd(us, flag);
  }

  /** Loading an env file keeps every variable already set and only adds valid keys. */
  lemma LoadEnvKeeps(path: string, env: map<string, string>, files: map<string, seq<string>>)
    ensures var env' := LoadEnv(path, env, files);
      && (forall k :: k in env ==> k in env' && env'[k] == env[k])
      && (forall k :: k in env' && k !in env ==> DotEnv.ValidKey(k))
  {
    if path in files {
      var acc := DotEnv.LoadFrom(files[path], DotEnv.Loaded(env, []));
      DotEnv.LoadNeverOverwrites(files[path], env);
      forall k | k in acc.env && k !in env ensures DotEnv.ValidKey(k) {
        assert k in (set k' | k' in acc.keys);
        var i :| 0 <= i < |acc.keys| && acc.keys[i] == k;
      }
    }
  }

  /** Whatever the mode, a run never changes a variable already set in the
      environment; it only adds new, valid keys. */
  lemma EnvNeverOverwritten(argv: seq<string>, env: map<string, string>, w: World)
    ensures var r := Dcj(argv, env, w);
      && (forall k :: k in env ==> k in r.env && r.env[k] == env[k])
      && (forall k :: k in r.env && k !in env ==> DotEnv.ValidKey(k))
  {
    if SelectMode(argv) == Normal && Args.Rewrite(argv).Ok? {
      var rw := Args.Rewrite(argv).value;
      var path := OrDefault(rw.custom.envFile, DefaultEnvFile);
      LoadEnvKeeps(path, env, w.files);
      assert Dcj(argv, env, w).env == LoadEnv(path, env, w.files);
    }
  }

  /** The env file read in a normal run is the `--env-file` value, or `.env` when
      that is absent or empty. */
  lemma EnvFileChosen(argv: seq<string>, env: map<string, string>, w: World)
    requires SelectMode(argv) == Normal && Args.Rewrite(argv).Ok?
    ensures Dcj(argv, env, w).env ==
              LoadEnv(OrDefault(Args.Rewrite(argv).value.custom.envFile, DefaultEnvFile), env, w.files)
  {
  }
}
