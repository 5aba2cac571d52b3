/**
  The Android build diagnostic: ten checks of the build environment, each
  reduced to a `CheckResult`, a printed report and an exit code.

  The program's observations of the machine (environment variables, which
  paths exist, what `shutil.which` finds, the text of `local.properties` and
  the output of the two subprocesses it runs) are the fields of `Env`.
 */
module AndroidDiagnostic {
  import opened Wrappers
  import opened PyText

  // ---------------------------------------------------------------------
  // Results

  /** The three statuses the checks report, and the text `CheckResult.status`
      holds for each. */
  datatype Status = Ok | Warn | Fail

  function StatusText(s: Status): (t: string)
    ensures ']' !in t && Upper(t) == t
  {
    match s
    case Ok => "OK"
    case Warn => "WARN"
    case Fail => "FAIL"
  }

  /** The outcome of one check. */
  datatype CheckResult = CheckResult(name: string, status: Status, details: string, suggestion: Option<string>)

  /** `is_ok` on the status text: "ok" in any letter case. */
  function IsOkText(status: string): (ok: bool)
    ensures ok <==> |status| == 2 && status[0] in "oO" && status[1] in "kK"
  {
    Lower(status) == "ok"
  }

  /** The text is "ok" in some letter case exactly when its upper-case form,
      the one the report prints, is "OK". */
  lemma OkTextIffTag(status: string)
    ensures IsOkText(status) <==> Upper(status) == "OK"
  {
    LowerUpperAgree(status, "ok");
    assert Upper("ok") == "OK";
  }

  /** `is_ok`: of the three statuses, only `Ok` passes. */
  function IsOk(r: CheckResult): (ok: bool)
    ensures ok <==> r.status == Ok
  {
    IsOkText(StatusText(r.status))
  }

  /** A suggestion is shown only when it is present and non-empty. */
  predicate HasSuggestion(r: CheckResult) {
    r.suggestion.Some? && r.suggestion.value != ""
  }

  function SuggestionSuffix(r: CheckResult): string {
    if HasSuggestion(r) then " Suggestion: " + r.suggestion.value else ""
  }

  /** `_format_result`: one line of the report. */
  function FormatResult(r: CheckResult): string {
    "- [" + Upper(StatusText(r.status)) + "] " + r.name + ": " + r.details + "." + SuggestionSuffix(r)
  }

  /** The bracketed tag at the head of a report line, if there is one. */
  function StatusTag(line: string): (tag: Option<string>)
    ensures tag.Some? ==> "- [" <= line && ']' !in tag.value
  {
    if "- [" <= line then
      var rest := line[3..];
      var i := IndexOf(rest, ']');
      if i < |rest| then Some(rest[..i]) else None
    else None
  }

  /** The tag of a formatted line reads back the status text. */
  lemma FormatTagRoundTrip(r: CheckResult)
    ensures StatusTag(FormatResult(r)) == Some(StatusText(r.status))
  {
    var u := StatusText(r.status);
    var line := FormatResult(r);
    var rest := line[3..];
    assert rest[..|u|] == u;
    assert rest[|u|] == ']';
    assert IndexOf(rest, ']') == |u|;
  }

  /** A line is tagged `[OK]` exactly when its result is ok, and so the tag
      tells the three statuses apart. */
  lemma FormatShowsOk(r: CheckResult)
    ensures StatusTag(FormatResult(r)) == Some("OK") <==> IsOk(r)
    ensures forall r' :: StatusTag(FormatResult(r')) == StatusTag(FormatResult(r)) ==> r'.status == r.status
  {
    FormatTagRoundTrip(r);
    forall r' | StatusTag(FormatResult(r')) == StatusTag(FormatResult(r)) ensures r'.status == r.status {
      FormatTagRoundTrip(r');
    }
  }

  /** The line is the fixed frame around the status, name and details, with
      the suggestion text at its end exactly when there is a suggestion. */
  lemma FormatLayout(r: CheckResult)
    ensures var line := FormatResult(r);
      && "- [" <= line
      && |line| == 8 + |StatusText(r.status)| + |r.name| + |r.details| + (if HasSuggestion(r) then 13 + |r.suggestion.value| else 0)
      && (HasSuggestion(r) ==> line[|line| - |r.suggestion.value|..] == r.suggestion.value)
      && (!HasSuggestion(r) ==> line[|line| - 1] == '.')
  {
  }

  // ---------------------------------------------------------------------
  // Observations

  /** The result of running a subprocess with `check=True`: its standard
      output, or the text of the exception that reports its failure. */
  datatype RunOutcome = Completed(stdout: string) | Failed(err: string)

  datatype Env = Env(
    vars: map<string, string>,         // os.environ
    existing: set<string>,             // the paths that exist, as written
    userHome: Option<string>,          // the current user's home in the password database
    homes: map<string, string>,        // the home of each user name in the password database
    which: map<string, string>,        // what shutil.which finds for a command
    localProperties: Option<string>,   // the text of local.properties, None when missing
    rustupTargets: RunOutcome,         // `rustup target list --installed`
    gradleVersion: RunOutcome,         // `gradlew --version`
    repoRoot: string)                  // the repository's resolved root directory

  predicate PathExists(env: Env, path: string) {
    path in env.existing
  }

  /** The variable is set to a non-empty value. */
  predicate Configured(env: Env, v: string) {
    v in env.vars && env.vars[v] != ""
  }

  /** `shutil.which(name)` returned a non-empty path. */
  predicate OnPath(env: Env, name: string) {
    name in env.which && env.which[name] != ""
  }

  /** `a / b` on a `pathlib.Path`. */
  function PathJoin(a: string, b: string): string {
    if a != [] && a[|a| - 1] == '/' then a + b else a + "/" + b
  }

  /** `s.rstrip("/")`. */
  function StripTrailingSlashes(s: string): string {
    if s != [] && s[|s| - 1] == '/' then StripTrailingSlashes(s[..|s| - 1]) else s
  }

  /** The home directory `~` (empty `name`) or `~name` stands for: `$HOME`
      when it is set, else the current user's password entry, and for a
      named user that user's entry. */
  function HomeOf(env: Env, name: string): Option<string> {
    if name == [] then (if "HOME" in env.vars then Some(env.vars["HOME"]) else env.userHome)
    else Get(env.homes, name)
  }

  /** `Path(s).expanduser()` on POSIX, as text: a leading `~` or `~name`
      component is replaced by that home directory, without its trailing
      slashes (or `/` if nothing is left). `None` stands for the
      `RuntimeError` it raises when the home directory cannot be determined. */
  function ExpandUser(env: Env, s: string): (r: Option<string>)
    ensures s == [] || s[0] != '~' ==> r == Some(s)
    ensures r.None? ==> s != [] && s[0] == '~'
  {
    if s == [] || s[0] != '~' then Some(s)
    else
      var i := 1 + IndexOf(s[1..], '/');
      match HomeOf(env, s[1..i])
      case None => None
      case Some(home) =>
        var dir := if StripTrailingSlashes(home) == [] then "/" else StripTrailingSlashes(home);
        if dir[0] == '~' then None
        else if i == |s| then Some(dir)
        else Some(PathJoin(dir, s[i + 1..]))
  }

  /** `Path(value).expanduser().exists()`. An expansion that raises is taken
      to be a missing path. */
  predicate ExpandedExists(env: Env, value: string) {
    var p := ExpandUser(env, value);
    p.Some? && PathExists(env, p.value)
  }

  /** `~/rest` is `rest` under `$HOME`, when `HOME` is set to an absolute
      directory without a trailing slash. */
  lemma ExpandHome(env: Env, rest: string)
    requires "HOME" in env.vars
    requires var home := env.vars["HOME"]; home != [] && home[0] == '/' && home[|home| - 1] != '/'
    ensures ExpandUser(env, "~/" + rest) == Some(env.vars["HOME"] + "/" + rest)
  {
    var s := "~/" + rest;
    assert s[1..][0] == '/';
    assert IndexOf(s[1..], '/') == 0;
    assert s[2..] == rest;
  }

  /** `~name` for a user without a password entry cannot be expanded. */
  lemma ExpandUnknownUser(env: Env, name: string, rest: string)
    requires name != [] && '/' !in name && name !in env.homes
    requires rest == [] || rest[0] == '/'
    ensures ExpandUser(env, "~" + name + rest) == None
  {
    var s := "~" + name + rest;
    var t := s[1..];
    assert t == name + rest;
    var j := IndexOf(t, '/');
    assert forall k :: 0 <= k < |name| ==> t[k] == name[k] && t[k] != '/';
    assert forall k :: 0 <= k < j ==> t[..j][k] == t[k] && t[k] != '/';
    assert rest != [] ==> t[|name|] == '/';
    assert j == |name|;
    assert s[1..1 + j] == name;
  }

  function AppRoot(env: Env): string {
    PathJoin(PathJoin(env.repoRoot, "android"), "MLCChat")
  }

  // ---------------------------------------------------------------------
  // Environment variables

  function FoundAt(name: string, description: string, value: string): CheckResult {
    CheckResult(name, Ok, description + " found at " + value, None)
  }

  function MissingPath(name: string, description: string, value: string): CheckResult {
    CheckResult(name, Warn, description + " path " + value + " does not exist",
                Some("Verify the path or reinstall the dependency."))
  }

  /** `check_env_var`. */
  function CheckEnvVar(env: Env, v: string, description: string): (r: CheckResult)
    ensures r.name == v
    ensures r.status == Ok <==> Configured(env, v) && ExpandedExists(env, env.vars[v])
    ensures r.status == Warn <==> Configured(env, v) && !ExpandedExists(env, env.vars[v])
    ensures r.status == Fail <==> !Configured(env, v)
    ensures !Configured(env, v) ==>
      r.suggestion == Some("Set the " + v + " environment variable to the installation path.")
  {
    var value := Get(env.vars, v);
    if value.Some? && value.value != "" && ExpandedExists(env, value.value) then
      FoundAt(v, description, value.value)
    else if value.Some? && value.value != "" then
      MissingPath(v, description, value.value)
    else
      CheckResult(v, Fail, description + " not configured",
                  Some("Set the " + v + " environment variable to the installation path."))
  }

  /** Variable `k` decides `check_alternative_env`: it is the first of `vars`
      that is set to a non-empty value. */
  predicate DecidedBy(env: Env, vars: seq<string>, k: int) {
    0 <= k < |vars| && Configured(env, vars[k])
    && forall j :: 0 <= j < k ==> !Configured(env, vars[j])
  }

  function FirstConfigured(env: Env, vars: seq<string>): (k: Option<nat>)
    ensures k.Some? ==> DecidedBy(env, vars, k.value)
    ensures k.None? <==> forall j :: 0 <= j < |vars| ==> !Configured(env, vars[j])
  {
    if vars == [] then None
    else if Configured(env, vars[0]) then Some(0)
    else
      match FirstConfigured(env, vars[1..])
      case None => None
      case Some(k) => Some(k + 1)
  }

  lemma DecidedByUnique(env: Env, vars: seq<string>, k: int, k': int)
    requires DecidedBy(env, vars, k) && DecidedBy(env, vars, k')
    ensures k == k'
  {
  }

  function NotConfigured(vars: seq<string>, description: string): CheckResult {
    var readable := Join(vars, " or ");
    CheckResult(readable, Fail, description + " not configured",
                Some("Set " + readable + " to your installation path."))
  }

  /** What `check_alternative_env` returns. */
  function AlternativeEnvResult(env: Env, vars: seq<string>, description: string): (r: CheckResult)
    ensures r.status == Fail <==> forall j :: 0 <= j < |vars| ==> !Configured(env, vars[j])
    ensures r.status == Fail ==> r.name == Join(vars, " or ")
    ensures forall k :: DecidedBy(env, vars, k) ==>
      && r.name == vars[k]
      && (r.status == Ok <==> ExpandedExists(env, env.vars[vars[k]]))
      && (r.status == Warn <==> !ExpandedExists(env, env.vars[vars[k]]))
  {
    match FirstConfigured(env, vars)
    case Some(k) =>
      if ExpandedExists(env, env.vars[vars[k]]) then FoundAt(vars[k], description, env.vars[vars[k]])
      else MissingPath(vars[k], description, env.vars[vars[k]])
    case None => NotConfigured(vars, description)
  }

  /** The first variable with a value decides the check: what any later
      variable holds, and whether its path exists, is never consulted. */
  lemma LaterVariablesIgnored(env: Env, env': Env, vars: seq<string>, description: string, k: int)
    requires DecidedBy(env, vars, k)
    requires forall j :: 0 <= j <= k ==> Get(env.vars, vars[j]) == Get(env'.vars, vars[j])
    requires ExpandedExists(env, env.vars[vars[k]]) == ExpandedExists(env', env.vars[vars[k]])
    ensures AlternativeEnvResult(env, vars, description) == AlternativeEnvResult(env', vars, description)
  {
    assert DecidedBy(env', vars, k) by {
      forall j | 0 <= j <= k ensures Configured(env, vars[j]) == Configured(env', vars[j]) {
        assert Get(env.vars, vars[j]) == Get(env'.vars, vars[j]);
      }
    }
    var f := FirstConfigured(env, vars);
    var f' := FirstConfigured(env', vars);
    DecidedByUnique(env, vars, k, f.value);
    DecidedByUnique(env', vars, k, f'.value);
    assert Get(env.vars, vars[k]) == Get(env'.vars, vars[k]);
  }

  /** `check_alternative_env`: the loop over the variables with its early returns. */
  method CheckAlternativeEnv(env: Env, vars: seq<string>, description: string) returns (r: CheckResult)
    ensures r == AlternativeEnvResult(env, vars, description)
  {
    var i := 0;
    while i < |vars|
      invariant 0 <= i <= |vars|
      invariant forall j :: 0 <= j < i ==> !Configured(env, vars[j])
    {
      var v := vars[i];
      var value := Get(env.vars, v);
      if value.Some? && value.value != "" && ExpandedExists(env, value.value) {
        DecidedByUnique(env, vars, i, FirstConfigured(env, vars).value);
        return FoundAt(v, description, value.value);
      }
      if value.Some? && value.value != "" {
        DecidedByUnique(env, vars, i, FirstConfigured(env, vars).value);
        return MissingPath(v, description, value.value);
      }
      i := i + 1;
    }
    return NotConfigured(vars, description);
  }

  // ---------------------------------------------------------------------
  // Commands and paths

  const RustTarget: string := "aarch64-linux-android"
  const RustupTargetCheck: string := "rustup_target"

  /** `check_command`, where `env.rustupTargets` is what running
      `<name> target list --installed` gives. */
  function CheckCommand(env: Env, name: string, description: string, postCheck: Option<string>): (r: CheckResult)
    ensures r.name == name
    ensures r.status == Fail <==> !OnPath(env, name)
    ensures OnPath(env, name) && postCheck == Some(RustupTargetCheck) ==>
      && (r.status == Ok <==> env.rustupTargets.Completed? && RustTarget in Split(env.rustupTargets.stdout))
      && (r.status == Warn <==> !(env.rustupTargets.Completed? && RustTarget in Split(env.rustupTargets.stdout)))
    ensures OnPath(env, name) && postCheck != Some(RustupTargetCheck) ==> r.status == Ok
  {
    var path := Get(env.which, name);
    if !(path.Some? && path.value != "") then
      CheckResult(name, Fail, description + " not available in PATH",
                  Some("Install " + description + " and ensure '" + name + "' is on PATH."))
    else if postCheck == Some(RustupTargetCheck) then
      match env.rustupTargets
      case Failed(err) =>
        CheckResult(name, Warn, "Rust is available but installed targets could not be determined",
                    Some("Run '" + name + " target add aarch64-linux-android' manually.\n" + err))
      case Completed(stdout) =>
        var targets := Split(stdout);
        if RustTarget in targets then
          CheckResult(name, Ok, description + " available with aarch64-linux-android target installed", None)
        else
          CheckResult(name, Warn, description + " available but missing the aarch64-linux-android target",
                      Some("Run '" + name + " target add aarch64-linux-android' before building."))
    else
      CheckResult(name, Ok, description + " available at " + path.value, None)
  }

  /** The target test of the rustup post-check: the target must be listed as
      a whole whitespace-delimited word, not merely as a substring. */
  lemma RustTargetListed(env: Env, name: string, description: string)
    requires OnPath(env, name) && env.rustupTargets.Completed?
    ensures CheckCommand(env, name, description, Some(RustupTargetCheck)).status == Ok
      <==> exists i :: IsWordAt(env.rustupTargets.stdout, RustTarget, i)
  {
    InSplitIff(env.rustupTargets.stdout, RustTarget);
  }

  /** `check_path_exists`: never `Fail`. */
  function CheckPathExists(env: Env, path: string, description: string, suggestion: Option<string>): (r: CheckResult)
    ensures r.name == path
    ensures r.status == Ok <==> PathExists(env, path)
    ensures r.status == Warn <==> !PathExists(env, path)
    ensures !PathExists(env, path) ==> r.suggestion == suggestion
  {
    if PathExists(env, path) then CheckResult(path, Ok, description + " available", None)
    else CheckResult(path, Warn, description + " not found", suggestion)
  }

  // ---------------------------------------------------------------------
  // local.properties

  const SdkDirKey: string := "sdk.dir="

  /** `line.split("=", 1)[1].strip()` on a line that starts with `sdk.dir=`:
      the stripped text after the key. */
  function SdkDirValue(line: string): (v: string)
    requires SdkDirKey <= line
    ensures v == Strip(line[|SdkDirKey|..])
  {
    SplitOnceAfterPrefix(line, SdkDirKey, '=');
    Strip(SplitOnce(line, '=')[1])
  }

  /** Line `i` is the first that starts with `sdk.dir=`. */
  predicate FirstEntryAt(lines: seq<string>, i: int) {
    0 <= i < |lines| && SdkDirKey <= lines[i]
    && forall j :: 0 <= j < i ==> !(SdkDirKey <= lines[j])
  }

  lemma FirstEntryUnique(lines: seq<string>, k: int, k': int)
    requires FirstEntryAt(lines, k) && FirstEntryAt(lines, k')
    ensures k == k'
  {
  }

  /** The index of the first line that starts with `sdk.dir=`, if any. */
  function FirstEntry(lines: seq<string>): (k: Option<nat>)
    ensures k.Some? ==> FirstEntryAt(lines, k.value)
    ensures k.None? <==> forall j :: 0 <= j < |lines| ==> !(SdkDirKey <= lines[j])
  {
    if lines == [] then None
    else if SdkDirKey <= lines[0] then Some(0)
    else
      match FirstEntry(lines[1..])
      case None => None
      case Some(k) => Some(k + 1)
  }

  /** The value the loop of `check_local_properties` leaves in `sdk_dir`:
      the stripped text after the key on the first line that has the key,
      and `None` when no line has it. */
  function SdkDir(lines: seq<string>): (d: Option<string>)
    ensures d.Some? <==> exists i :: 0 <= i < |lines| && SdkDirKey <= lines[i]
    ensures forall i :: FirstEntryAt(lines, i) ==> d == Some(Strip(lines[i][|SdkDirKey|..]))
  {
    match FirstEntry(lines)
    case Some(k) =>
      assert forall i :: FirstEntryAt(lines, i) ==> i == k;
      Some(SdkDirValue(lines[k]))
    case None => None
  }

  /** Only the first `sdk.dir=` line counts: lines after it, other entries
      included, change nothing, and lines before it hold no entry. */
  lemma SdkDirFirstWins(lines: seq<string>, more: seq<string>)
    ensures SdkDir(lines).Some? ==> SdkDir(lines + more) == SdkDir(lines)
    ensures SdkDir(lines).None? ==> SdkDir(lines + more) == SdkDir(more)
  {
    var all := lines + more;
    match FirstEntry(lines)
    case Some(k) =>
      assert FirstEntryAt(all, k) by {
        forall j | 0 <= j <= k ensures all[j] == lines[j] { }
      }
    case None =>
      match FirstEntry(more)
      case Some(k) =>
        assert FirstEntryAt(all, |lines| + k) by {
          forall j | 0 <= j < |lines| + k ensures !(SdkDirKey <= all[j]) {
            if j >= |lines| { assert all[j] == more[j - |lines|]; }
          }
        }
        assert all[|lines| + k] == more[k];
      case None =>
        forall j | 0 <= j < |all| ensures !(SdkDirKey <= all[j]) {
          if j >= |lines| { assert all[j] == more[j - |lines|]; }
        }
  }

  /** The loop of `check_local_properties` that stops at the first entry. */
  method FindSdkDir(lines: seq<string>) returns (sdkDir: Option<string>)
    ensures sdkDir == SdkDir(lines)
  {
    sdkDir := None;
    var i := 0;
    while i < |lines|
      invariant 0 <= i <= |lines|
      invariant sdkDir == None
      invariant forall j :: 0 <= j < i ==> !(SdkDirKey <= lines[j])
    {
      if SdkDirKey <= lines[i] {
        sdkDir := Some(SdkDirValue(lines[i]));
        assert FirstEntryAt(lines, i);
        break;
      }
      i := i + 1;
    }
  }

  const EntryMissing: string := "sdk.dir entry missing"

  lemma DetailsDistinct(d: string)
    ensures "local.properties not found" != EntryMissing
    ensures "sdk.dir points to " + d != EntryMissing
    ensures "sdk.dir points to missing path " + d != EntryMissing
  {
    assert "local.properties not found"[0] != EntryMissing[0];
    assert ("sdk.dir points to " + d)[8] != EntryMissing[8];
    assert ("sdk.dir points to missing path " + d)[8] != EntryMissing[8];
  }

  function LocalPropertiesPath(env: Env): string {
    PathJoin(AppRoot(env), "local.properties")
  }

  /** What `check_local_properties` returns. It never fails the build: every
      problem is a warning. */
  function LocalPropertiesResult(env: Env): (r: CheckResult)
    ensures r.name == LocalPropertiesPath(env)
    ensures r.status == Ok || r.status == Warn
    ensures r.status == Ok <==>
      && env.localProperties.Some?
      && var d := SdkDir(SplitLines(env.localProperties.value));
         d.Some? && d.value != "" && PathExists(env, d.value)
    ensures r.details == EntryMissing <==>
      && env.localProperties.Some?
      && var d := SdkDir(SplitLines(env.localProperties.value));
         d.None? || d.value == ""
  {
    var path := LocalPropertiesPath(env);
    match env.localProperties
    case None =>
      DetailsDistinct("");
      CheckResult(path, Warn, "local.properties not found",
                  Some("Create local.properties with an sdk.dir entry or set ANDROID_HOME."))
    case Some(text) =>
      var d := SdkDir(SplitLines(text));
      if d.Some? && d.value != "" then
        if PathExists(env, d.value) then
          DetailsDistinct(d.value);
          CheckResult(path, Ok, "sdk.dir points to " + d.value, None)
        else
          DetailsDistinct(d.value);
          CheckResult(path, Warn, "sdk.dir points to missing path " + d.value,
                      Some("Update sdk.dir to the correct Android SDK location."))
      else
        CheckResult(path, Warn, EntryMissing,
                    Some("Add sdk.dir=/path/to/android/sdk to local.properties."))
  }

  /** `check_local_properties`. */
  method CheckLocalProperties(env: Env) returns (r: CheckResult)
    ensures r == LocalPropertiesResult(env)
  {
    var path := LocalPropertiesPath(env);
    if env.localProperties.None? {
      return CheckResult(path, Warn, "local.properties not found",
                         Some("Create local.properties with an sdk.dir entry or set ANDROID_HOME."));
    }
    var sdkDir := FindSdkDir(SplitLines(env.localProperties.value));
    if sdkDir.Some? && sdkDir.value != "" {
      if PathExists(env, sdkDir.value) {
        return CheckResult(path, Ok, "sdk.dir points to " + sdkDir.value, None);
      }
      return CheckResult(path, Warn, "sdk.dir points to missing path " + sdkDir.value,
                         Some("Update sdk.dir to the correct Android SDK location."));
    }
    return CheckResult(path, Warn, EntryMissing,
                       Some("Add sdk.dir=/path/to/android/sdk to local.properties."));
  }

  /** A `JAVA_HOME` of `~/sdk` is found when `$HOME/sdk` exists. */
  lemma TildeVariableExpanded(env: Env)
    requires env.vars == map["HOME" := "/home/dev", "JAVA_HOME" := "~/sdk"]
    requires env.existing == {"/home/dev/sdk"}
    ensures CheckEnvVar(env, "JAVA_HOME", "JDK").status == Ok
  {
    ExpandHome(env, "sdk");
    assert "~/" + "sdk" == "~/sdk" && "/home/dev" + "/" + "sdk" == "/home/dev/sdk";
    assert ExpandedExists(env, env.vars["JAVA_HOME"]);
  }

  /** The text `sdk.dir=~/sdk` followed by a newline holds one line. */
  lemma TildeSdkDirSplit()
    ensures SplitLines("sdk.dir=~/sdk\n") == ["sdk.dir=~/sdk"]
  {
    var lines := ["sdk.dir=~/sdk"];
    assert Terminated(lines) == "sdk.dir=~/sdk\n";
    SplitLinesTerminated(lines);
  }

  /** A single entry line names the sdk dir it holds. */
  lemma SdkDirOfEntry(v: string)
    ensures SdkDir([SdkDirKey + v]) == Some(Strip(v))
  {
    var line := SdkDirKey + v;
    assert line[|SdkDirKey|..] == v;
    assert FirstEntryAt([line], 0);
  }

  /** `~/sdk` carries no whitespace to strip. */
  lemma TildeSdkStripped()
    ensures Strip("~/sdk") == "~/sdk"
  {
    StripFixedPoint("~/sdk");
  }

  /** That line names the sdk dir `~/sdk`. */
  lemma TildeSdkDirValue()
    ensures SdkDir(["sdk.dir=~/sdk"]) == Some("~/sdk")
  {
    SdkDirOfEntry("~/sdk");
    TildeSdkStripped();
    assert SdkDirKey + "~/sdk" == "sdk.dir=~/sdk";
  }

  /** The entry `sdk.dir=~/sdk` is looked up as written: without a
      directory named `~`, it warns, whatever `$HOME` holds. */
  lemma TildeSdkDirNotExpanded(env: Env)
    requires env.localProperties == Some("sdk.dir=~/sdk\n")
    requires "~/sdk" !in env.existing
    ensures LocalPropertiesResult(env).status == Warn
  {
    TildeSdkDirSplit();
    TildeSdkDirValue();
    assert !PathExists(env, "~/sdk");
  }

  // ---------------------------------------------------------------------
  // gradlew --version

  /** `[line.strip() for line in lines if line.strip()]`. */
  function NonBlankStripped(lines: seq<string>): (r: seq<string>)
    ensures forall k :: 0 <= k < |r| ==> r[k] != ""
  {
    if lines == [] then []
    else if Strip(lines[0]) != "" then [Strip(lines[0])] + NonBlankStripped(lines[1..])
    else NonBlankStripped(lines[1..])
  }

  /** `next((line for line in lines if sub in line), None)`. */
  function FirstContaining(lines: seq<string>, sub: string): (r: Option<string>)
    ensures r.None? <==> forall i :: 0 <= i < |lines| ==> !Contains(lines[i], sub)
    ensures r.Some? ==> Contains(r.value, sub) && r.value in lines
  {
    if lines == [] then None
    else if Contains(lines[0], sub) then Some(lines[0])
    else FirstContaining(lines[1..], sub)
  }

  const DefaultGradleDetails: string := "Gradle wrapper executed successfully"

  /** The details `run_gradle_help` reports for a successful run. */
  function GradleDetails(stdout: string): (d: string)
    ensures d != ""
  {
    var lines := NonBlankStripped(SplitLines(stdout));
    match FirstContaining(lines, "Gradle")
    case Some(line) => line
    case None => if lines != [] then lines[0] else DefaultGradleDetails
  }

  lemma ContainsNonEmpty(s: string, sub: string)
    requires sub != "" && Contains(s, sub)
    ensures s != ""
  {
  }

  lemma {:induction false} FirstContainingStripped(lines: seq<string>, sub: string, i: int)
    requires sub != "" && 0 <= i < |lines| && Contains(Strip(lines[i]), sub)
    requires forall j :: 0 <= j < i ==> !Contains(Strip(lines[j]), sub)
    ensures FirstContaining(NonBlankStripped(lines), sub) == Some(Strip(lines[i]))
  {
    var head := Strip(lines[0]);
    var rest := lines[1..];
    if i == 0 {
      ContainsNonEmpty(head, sub);
      assert NonBlankStripped(lines) == [head] + NonBlankStripped(rest);
    } else {
      assert forall j :: 0 <= j < i - 1 ==> rest[j] == lines[j + 1];
      FirstContainingStripped(rest, sub, i - 1);
      assert !Contains(head, sub);
      if head != "" {
        assert NonBlankStripped(lines) == [head] + NonBlankStripped(rest);
      } else {
        assert NonBlankStripped(lines) == NonBlankStripped(rest);
      }
    }
  }

  lemma {:induction false} NoneContainingStripped(lines: seq<string>, sub: string)
    requires forall j :: 0 <= j < |lines| ==> !Contains(Strip(lines[j]), sub)
    ensures FirstContaining(NonBlankStripped(lines), sub) == None
  {
    if lines != [] {
      assert !Contains(Strip(lines[0]), sub);
      NoneContainingStripped(lines[1..], sub);
    }
  }

  lemma {:induction false} FirstNonBlank(lines: seq<string>, i: int)
    requires 0 <= i < |lines| && Strip(lines[i]) != ""
    requires forall j :: 0 <= j < i ==> Strip(lines[j]) == ""
    ensures NonBlankStripped(lines) != [] && NonBlankStripped(lines)[0] == Strip(lines[i])
  {
    if i > 0 {
      assert Strip(lines[0]) == "";
      FirstNonBlank(lines[1..], i - 1);
    }
  }

  lemma {:induction false} AllBlank(lines: seq<string>)
    requires forall j :: 0 <= j < |lines| ==> Strip(lines[j]) == ""
    ensures NonBlankStripped(lines) == []
  {
    if lines != [] {
      assert Strip(lines[0]) == "";
      AllBlank(lines[1..]);
    }
  }

  /** The details are the first output line, stripped, that mentions Gradle. */
  lemma GradleDetailsVersionLine(stdout: string, i: int)
    requires var lines := SplitLines(stdout);
      && 0 <= i < |lines| && Contains(Strip(lines[i]), "Gradle")
      && forall j :: 0 <= j < i ==> !Contains(Strip(lines[j]), "Gradle")
    ensures GradleDetails(stdout) == Strip(SplitLines(stdout)[i])
  {
    FirstContainingStripped(SplitLines(stdout), "Gradle", i);
  }

  /** Failing that, they are the first non-blank output line, stripped. */
  lemma GradleDetailsFirstLine(stdout: string, i: int)
    requires var lines := SplitLines(stdout);
      && (forall j :: 0 <= j < |lines| ==> !Contains(Strip(lines[j]), "Gradle"))
      && 0 <= i < |lines| && Strip(lines[i]) != ""
      && forall j :: 0 <= j < i ==> Strip(lines[j]) == ""
    ensures GradleDetails(stdout) == Strip(SplitLines(stdout)[i])
  {
    NoneContainingStripped(SplitLines(stdout), "Gradle");
    FirstNonBlank(SplitLines(stdout), i);
  }

  /** And for a blank output they are a fixed message. */
  lemma GradleDetailsBlankOutput(stdout: string)
    requires forall j :: 0 <= j < |SplitLines(stdout)| ==> Strip(SplitLines(stdout)[j]) == ""
    ensures GradleDetails(stdout) == DefaultGradleDetails
  {
    AllBlank(SplitLines(stdout));
  }

  function GradlewPath(env: Env): string {
    PathJoin(AppRoot(env), "gradlew")
  }

  /** `run_gradle_help`. */
  function RunGradleHelp(env: Env): (r: CheckResult)
    ensures r.status == Fail <==> !PathExists(env, GradlewPath(env))
    ensures r.status == Warn <==> PathExists(env, GradlewPath(env)) && env.gradleVersion.Failed?
    ensures r.status == Ok <==> PathExists(env, GradlewPath(env)) && env.gradleVersion.Completed?
    ensures r.status == Fail ==> r.name == GradlewPath(env)
    ensures r.status == Warn ==> r.name == "gradlew --version"
    ensures r.status == Ok ==> r.name == "gradlew" && r.details == GradleDetails(env.gradleVersion.stdout)
  {
    var gradlew := GradlewPath(env);
    if !PathExists(env, gradlew) then
      CheckResult(gradlew, Fail, "Gradle wrapper missing", Some("Restore gradlew to run Gradle tasks."))
    else
      match env.gradleVersion
      case Failed(err) =>
        CheckResult("gradlew --version", Warn, "Gradle wrapper failed to execute",
                    Some("Investigate Gradle wrapper configuration.\n" + err))
      case Completed(stdout) =>
        CheckResult("gradlew", Ok, GradleDetails(stdout), None)
  }

  // ---------------------------------------------------------------------
  // main

  const SdkVars: seq<string> := ["ANDROID_SDK_ROOT", "ANDROID_HOME"]
  const NdkVars: seq<string> := ["ANDROID_NDK", "ANDROID_NDK_HOME"]

  function Mlc4jDist(env: Env): string {
    PathJoin(PathJoin(PathJoin(AppRoot(env), "dist"), "lib"), "mlc4j")
  }

  function PackageConfig(env: Env): string {
    PathJoin(AppRoot(env), "mlc-package-config.json")
  }

  const Mlc4jSuggestion: string :=
    "Run `python android/mlc4j/prepare_libs.py` after installing the Android NDK "
    + "to generate the prebuilt mlc4j artifacts."
  const PackageConfigSuggestion: string :=
    "Create or download mlc-package-config.json for packaging weights."

  /** Check `i` of `main`, in the order it runs them. */
  function CheckAt(env: Env, i: nat): CheckResult
    requires i < 10
  {
    if i == 0 then AlternativeEnvResult(env, SdkVars, "Android SDK")
    else if i == 1 then AlternativeEnvResult(env, NdkVars, "Android NDK")
    else if i == 2 then CheckEnvVar(env, "JAVA_HOME", "JDK")
    else if i == 3 then CheckCommand(env, "cmake", "CMake", None)
    else if i == 4 then CheckCommand(env, "adb", "Android Debug Bridge", None)
    else if i == 5 then CheckCommand(env, "rustup", "Rust toolchain", Some(RustupTargetCheck))
    else if i == 6 then LocalPropertiesResult(env)
    else if i == 7 then
      CheckPathExists(env, Mlc4jDist(env), "Packaged mlc4j Android library", Some(Mlc4jSuggestion))
    else if i == 8 then
      CheckPathExists(env, PackageConfig(env), "Model packaging configuration", Some(PackageConfigSuggestion))
    else RunGradleHelp(env)
  }

  /** The list of results `main` builds: check `i` at position `i`. */
  function Checks(env: Env): seq<CheckResult> {
    seq(10, i requires 0 <= i < 10 => CheckAt(env, i))
  }

  /** `[c for c in checks if not c.is_ok]`. */
  function Failing(cs: seq<CheckResult>): (fs: seq<CheckResult>)
    ensures forall c :: c in fs <==> c in cs && !IsOk(c)
    ensures |fs| <= |cs|
  {
    if cs == [] then []
    else if !IsOk(cs[0]) then [cs[0]] + Failing(cs[1..])
    else Failing(cs[1..])
  }

  /** Filtering distributes over concatenation: the failing list keeps the
      checks' order and multiplicity. */
  lemma {:induction false} FailingAppend(a: seq<CheckResult>, b: seq<CheckResult>)
    ensures Failing(a + b) == Failing(a) + Failing(b)
    decreases |a|
  {
    if a == [] {
      assert a + b == b;
    } else {
      assert (a + b)[0] == a[0];
      assert (a + b)[1..] == a[1..] + b;
      FailingAppend(a[1..], b);
    }
  }

  /** A single check is kept exactly when it is not ok. */
  lemma FailingOne(c: CheckResult)
    ensures Failing([c]) == if IsOk(c) then [] else [c]
  {
    assert [c][1..] == [];
  }

  function ExitCode(cs: seq<CheckResult>): int {
    if Failing(cs) != [] then 1 else 0
  }

  /** The exit code is 1 when some check is not ok, and 0 when all are. */
  lemma ExitCodeIff(cs: seq<CheckResult>)
    ensures ExitCode(cs) == 0 || ExitCode(cs) == 1
    ensures ExitCode(cs) == 1 <==> exists i :: 0 <= i < |cs| && !IsOk(cs[i])
  {
    var fs := Failing(cs);
    if exists i :: 0 <= i < |cs| && !IsOk(cs[i]) {
      var i :| 0 <= i < |cs| && !IsOk(cs[i]);
      assert cs[i] in fs;
    }
    if fs != [] {
      assert fs[0] in cs;
      var i :| 0 <= i < |cs| && cs[i] == fs[0];
      assert !IsOk(cs[i]);
    }
  }

  lemma AlternativeNames(env: Env, vars: seq<string>, description: string)
    ensures AlternativeEnvResult(env, vars, description).name in vars + [Join(vars, " or ")]
  {
    var f := FirstConfigured(env, vars);
    if f.Some? {
      assert DecidedBy(env, vars, f.value);
    }
  }

  /** The first three checks are named after environment variables. */
  lemma VariableCheckNames(env: Env)
    ensures CheckAt(env, 0).name in SdkVars + [Join(SdkVars, " or ")]
    ensures CheckAt(env, 1).name in NdkVars + [Join(NdkVars, " or ")]
    ensures CheckAt(env, 2).name == "JAVA_HOME"
  {
    AlternativeNames(env, SdkVars, "Android SDK");
    AlternativeNames(env, NdkVars, "Android NDK");
  }

  /** The next three are named after the commands they look up. */
  lemma CommandCheckNames(env: Env)
    ensures CheckAt(env, 3).name == "cmake" && CheckAt(env, 4).name == "adb" && CheckAt(env, 5).name == "rustup"
  {
  }

  /** The seventh check is named after `local.properties`. */
  lemma LocalPropertiesCheckName(env: Env)
    ensures CheckAt(env, 6).name == LocalPropertiesPath(env)
  {
  }

  /** The eighth is named after the packaged mlc4j directory. */
  lemma Mlc4jCheckName(env: Env)
    ensures CheckAt(env, 7).name == Mlc4jDist(env)
  {
  }

  /** The ninth is named after the packaging configuration file. */
  lemma PackageConfigCheckName(env: Env)
    ensures CheckAt(env, 8).name == PackageConfig(env)
  {
  }

  /** The last is named after the Gradle wrapper, or after the command that
      failed to run it. */
  lemma GradleCheckName(env: Env)
    ensures CheckAt(env, 9).name in {GradlewPath(env), "gradlew --version", "gradlew"}
  {
  }

  /** The names the two alternative checks report when no variable is set. */
  lemma ReadableNames()
    ensures Join(SdkVars, " or ") == "ANDROID_SDK_ROOT or ANDROID_HOME"
    ensures Join(NdkVars, " or ") == "ANDROID_NDK or ANDROID_NDK_HOME"
  {
  }

  ghost predicate AlternativeReady(env: Env, vars: seq<string>) {
    exists k :: DecidedBy(env, vars, k) && ExpandedExists(env, env.vars[vars[k]])
  }

  /** What check `i` needs in order to pass. */
  ghost predicate ReadyAt(env: Env, i: nat)
    requires i < 10
  {
    if i == 0 then AlternativeReady(env, SdkVars)
    else if i == 1 then AlternativeReady(env, NdkVars)
    else if i == 2 then Configured(env, "JAVA_HOME") && ExpandedExists(env, env.vars["JAVA_HOME"])
    else if i == 3 then OnPath(env, "cmake")
    else if i == 4 then OnPath(env, "adb")
    else if i == 5 then
      OnPath(env, "rustup") && env.rustupTargets.Completed? && RustTarget in Split(env.rustupTargets.stdout)
    else if i == 6 then
      && env.localProperties.Some?
      && var d := SdkDir(SplitLines(env.localProperties.value));
         d.Some? && d.value != "" && PathExists(env, d.value)
    else if i == 7 then PathExists(env, Mlc4jDist(env))
    else if i == 8 then PathExists(env, PackageConfig(env))
    else PathExists(env, GradlewPath(env)) && env.gradleVersion.Completed?
  }

  /** Everything a successful run of the diagnostic needs. */
  ghost predicate Ready(env: Env) {
    forall i :: 0 <= i < 10 ==> ReadyAt(env, i)
  }

  lemma AlternativeOk(env: Env, vars: seq<string>, description: string)
    ensures AlternativeEnvResult(env, vars, description).status == Ok <==> AlternativeReady(env, vars)
  {
    var f := FirstConfigured(env, vars);
    if f.Some? {
      assert DecidedBy(env, vars, f.value);
    }
  }

  /** Each check passes exactly when the environment meets its condition. */
  lemma CheckOkIff(env: Env, i: nat)
    requires i < 10
    ensures IsOk(CheckAt(env, i)) <==> ReadyAt(env, i)
  {
    if i == 0 {
      AlternativeOk(env, SdkVars, "Android SDK");
    } else if i == 1 {
      AlternativeOk(env, NdkVars, "Android NDK");
    }
  }

  /** The diagnostic exits with 0 exactly when the environment is ready. */
  lemma ExitZeroIffReady(env: Env)
    ensures ExitCode(Checks(env)) == 0 <==> Ready(env)
  {
    var cs := Checks(env);
    ExitCodeIff(cs);
    forall i | 0 <= i < 10 ensures IsOk(cs[i]) <==> ReadyAt(env, i) {
      CheckOkIff(env, i);
    }
  }

  // ---------------------------------------------------------------------
  // The printed report

  const Banner: string := "MLC-LLM Android Build Diagnostic\n" + Repeat('=', 35)
  const ChecksHeading: string := "\nChecks:"
  const AttentionLine: string := "\nSummary: Build environment requires attention."
  const ResolveLine: string := "\nResolve the warnings above before attempting to assemble the APK."
  const ReadyLine: string := "\nSummary: Environment looks ready for building the Android APK."

  function SuggestionLine(c: CheckResult): string
    requires HasSuggestion(c)
  {
    "  - " + c.name + ": " + c.suggestion.value
  }

  /** The summary lines printed for the failing checks: one per check with a
      suggestion, in order. */
  function SummaryLines(fs: seq<CheckResult>): seq<string> {
    if fs == [] then []
    else
      var last := fs[|fs| - 1];
      SummaryLines(fs[..|fs| - 1]) + (if HasSuggestion(last) then [SuggestionLine(last)] else [])
  }

  /** Each summary line belongs to a check with a suggestion, and each such
      check has its line. */
  lemma {:induction false} SummaryLinesMatch(fs: seq<CheckResult>)
    ensures |SummaryLines(fs)| <= |fs|
    ensures forall line :: line in SummaryLines(fs) <==>
      exists c :: c in fs && HasSuggestion(c) && line == SuggestionLine(c)
  {
    if fs != [] {
      var init := fs[..|fs| - 1];
      SummaryLinesMatch(init);
      assert fs == init + [fs[|fs| - 1]];
      forall c | c in fs ensures c in init || c == fs[|fs| - 1] { }
    }
  }

  /** The summary lines of two lists of checks, one after the other, are
      those of the first followed by those of the second. */
  lemma {:induction false} SummaryLinesAppend(a: seq<CheckResult>, b: seq<CheckResult>)
    ensures SummaryLines(a + b) == SummaryLines(a) + SummaryLines(b)
    decreases |b|
  {
    if b == [] {
      assert a + b == a;
    } else {
      var ab := a + b;
      var init := b[..|b| - 1];
      assert ab[..|ab| - 1] == a + init;
      assert ab[|ab| - 1] == b[|b| - 1];
      SummaryLinesAppend(a, init);
    }
  }

  /** A single failing check prints its suggestion line exactly when it has a
      suggestion. */
  lemma SummaryLinesOne(c: CheckResult)
    ensures SummaryLines([c]) == if HasSuggestion(c) then [SuggestionLine(c)] else []
  {
    assert [c][..0] == [];
  }

  /** `[f(x) for x in xs]`, built from the back, as a loop appends it. */
  function Map<A, B>(f: A -> B, xs: seq<A>): seq<B> {
    if xs == [] then []
    else Map(f, xs[..|xs| - 1]) + [f(xs[|xs| - 1])]
  }

  lemma {:induction false} MapAt<A, B>(f: A -> B, xs: seq<A>)
    ensures |Map(f, xs)| == |xs|
    ensures forall i :: 0 <= i < |xs| ==> Map(f, xs)[i] == f(xs[i])
  {
    if xs != [] {
      var init := xs[..|xs| - 1];
      MapAt(f, init);
      forall i | 0 <= i < |init| ensures Map(f, xs)[i] == f(xs[i]) {
        assert xs[i] == init[i];
      }
    }
  }

  /** The checks section: one formatted line per check, in order. */
  function FormatLines(cs: seq<CheckResult>): seq<string> {
    Map(FormatResult, cs)
  }

  /** Everything `main` prints, one element per `print` call. */
  function Report(cs: seq<CheckResult>): seq<string> {
    [Banner, ChecksHeading] + FormatLines(cs) + SummarySection(cs)
  }

  /** The printed lines after the checks section: the summary. */
  function SummarySection(cs: seq<CheckResult>): (t: seq<string>)
    ensures |t| == if ExitCode(cs) == 1 then 2 + |SummaryLines(Failing(cs))| else 1
    ensures t[|t| - 1] == if ExitCode(cs) == 0 then ReadyLine else ResolveLine
  {
    if Failing(cs) != [] then [AttentionLine] + SummaryLines(Failing(cs)) + [ResolveLine] else [ReadyLine]
  }

  /** The report opens with the banner and the heading, then shows every
      check, in order. */
  lemma ReportLayout(cs: seq<CheckResult>)
    ensures var out := Report(cs);
      && |out| > |cs| + 2 && out[0] == Banner && out[1] == ChecksHeading
      && (forall i :: 0 <= i < |cs| ==> out[2 + i] == FormatResult(cs[i]))
  {
    MapAt(FormatResult, cs);
    var lines := FormatLines(cs);
    var head := [Banner, ChecksHeading] + lines;
    var out := head + SummarySection(cs);
    assert out[0] == head[0] && out[1] == head[1];
    forall i | 0 <= i < |cs| ensures out[2 + i] == FormatResult(cs[i]) {
      assert out[2 + i] == head[2 + i] == lines[i];
    }
  }

  /** It has three lines more than there are checks, four more plus one per
      suggestion when some check fails, and it closes with the line that
      matches the exit code. */
  lemma ReportEnd(cs: seq<CheckResult>)
    ensures var out := Report(cs);
      && |out| == |cs| + 3 + (if ExitCode(cs) == 1 then 1 + |SummaryLines(Failing(cs))| else 0)
      && out[|out| - 1] == (if ExitCode(cs) == 0 then ReadyLine else ResolveLine)
  {
    MapAt(FormatResult, cs);
  }

  /** A ten-element sequence is the display of its elements. */
  lemma TenElements<T>(s: seq<T>, a0: T, a1: T, a2: T, a3: T, a4: T, a5: T, a6: T, a7: T, a8: T, a9: T)
    requires |s| == 10
    requires s[0] == a0 && s[1] == a1 && s[2] == a2 && s[3] == a3 && s[4] == a4
    requires s[5] == a5 && s[6] == a6 && s[7] == a7 && s[8] == a8 && s[9] == a9
    ensures s == [a0, a1, a2, a3, a4, a5, a6, a7, a8, a9]
  {
  }

  // One lemma per position, so that each proof unfolds `CheckAt` at a single
  // index.
  lemma ChecksEntry0(env: Env)
    ensures Checks(env)[0] == AlternativeEnvResult(env, SdkVars, "Android SDK")
  {
  }

  lemma ChecksEntry1(env: Env)
    ensures Checks(env)[1] == AlternativeEnvResult(env, NdkVars, "Android NDK")
  {
  }

  lemma ChecksEntry2(env: Env)
    ensures Checks(env)[2] == CheckEnvVar(env, "JAVA_HOME", "JDK")
  {
  }

  lemma ChecksEntry3(env: Env)
    ensures Checks(env)[3] == CheckCommand(env, "cmake", "CMake", None)
  {
  }

  lemma ChecksEntry4(env: Env)
    ensures Checks(env)[4] == CheckCommand(env, "adb", "Android Debug Bridge", None)
  {
  }

  lemma ChecksEntry5(env: Env)
    ensures Checks(env)[5] == CheckCommand(env, "rustup", "Rust toolchain", Some(RustupTargetCheck))
  {
  }

  lemma ChecksEntry6(env: Env)
    ensures Checks(env)[6] == LocalPropertiesResult(env)
  {
    assert Checks(env)[6] == CheckAt(env, 6);
  }

  lemma ChecksEntry7(env: Env)
    ensures Checks(env)[7] == CheckPathExists(env, Mlc4jDist(env), "Packaged mlc4j Android library", Some(Mlc4jSuggestion))
  {
  }

  lemma ChecksEntry8(env: Env)
    ensures Checks(env)[8] == CheckPathExists(env, PackageConfig(env), "Model packaging configuration", Some(PackageConfigSuggestion))
  {
  }

  lemma ChecksEntry9(env: Env)
    ensures Checks(env)[9] == RunGradleHelp(env)
  {
  }

  /** The ten results, written out in the order `main` appends them. */
  lemma ChecksInOrder(env: Env)
    ensures Checks(env) == [
      AlternativeEnvResult(env, SdkVars, "Android SDK"),
      AlternativeEnvResult(env, NdkVars, "Android NDK"),
      CheckEnvVar(env, "JAVA_HOME", "JDK"),
      CheckCommand(env, "cmake", "CMake", None),
      CheckCommand(env, "adb", "Android Debug Bridge", None),
      CheckCommand(env, "rustup", "Rust toolchain", Some(RustupTargetCheck)),
      LocalPropertiesResult(env),
      CheckPathExists(env, Mlc4jDist(env), "Packaged mlc4j Android library", Some(Mlc4jSuggestion)),
      CheckPathExists(env, PackageConfig(env), "Model packaging configuration", Some(PackageConfigSuggestion)),
      RunGradleHelp(env)]
  {
    ChecksEntry0(env); ChecksEntry1(env); ChecksEntry2(env); ChecksEntry3(env); ChecksEntry4(env);
    ChecksEntry5(env); ChecksEntry6(env); ChecksEntry7(env); ChecksEntry8(env); ChecksEntry9(env);
    TenElements(Checks(env),
      AlternativeEnvResult(env, SdkVars, "Android SDK"),
      AlternativeEnvResult(env, NdkVars, "Android NDK"),
      CheckEnvVar(env, "JAVA_HOME", "JDK"),
      CheckCommand(env, "cmake", "CMake", None),
      CheckCommand(env, "adb", "Android Debug Bridge", None),
      CheckCommand(env, "rustup", "Rust toolchain", Some(RustupTargetCheck)),
      LocalPropertiesResult(env),
      CheckPathExists(env, Mlc4jDist(env), "Packaged mlc4j Android library", Some(Mlc4jSuggestion)),
      CheckPathExists(env, PackageConfig(env), "Model packaging configuration", Some(PackageConfigSuggestion)),
      RunGradleHelp(env));
  }

  /** Ten appends to an empty list build the list of the ten values. */
  lemma AppendTen<T>(a0: T, a1: T, a2: T, a3: T, a4: T, a5: T, a6: T, a7: T, a8: T, a9: T)
    ensures [] + [a0] + [a1] + [a2] + [a3] + [a4] + [a5] + [a6] + [a7] + [a8] + [a9]
         == [a0, a1, a2, a3, a4, a5, a6, a7, a8, a9]
  {
  }

  /** The first loop of `main`'s printing: one line per check. */
  method PrintChecks(checks: seq<CheckResult>) returns (lines: seq<string>)
    ensures lines == FormatLines(checks)
  {
    lines := [];
    for i := 0 to |checks|
      invariant lines == Map(FormatResult, checks[..i])
    {
      assert checks[..i + 1][..i] == checks[..i];
      lines := lines + [FormatResult(checks[i])];
    }
    assert checks[..|checks|] == checks;
  }

  /** The second loop: one line per failing check with a suggestion. */
  method PrintSuggestions(failing: seq<CheckResult>) returns (lines: seq<string>)
    ensures lines == SummaryLines(failing)
  {
    lines := [];
    for i := 0 to |failing|
      invariant lines == SummaryLines(failing[..i])
    {
      var issue := failing[i];
      assert failing[..i + 1][..i] == failing[..i];
      if issue.suggestion.Some? && issue.suggestion.value != "" {
        lines := lines + ["  - " + issue.name + ": " + issue.suggestion.value];
      }
    }
    assert failing[..|failing|] == failing;
  }

  /** The printing half of `main`: the checks section, then the summary. */
  method PrintReport(checks: seq<CheckResult>) returns (printed: seq<string>, code: int)
    ensures printed == Report(checks)
    ensures code == ExitCode(checks)
  {
    var lines := PrintChecks(checks);
    printed := [Banner, ChecksHeading] + lines;
    var failing := Failing(checks);
    if failing != [] {
      var suggestions := PrintSuggestions(failing);
      printed := printed + ([AttentionLine] + suggestions + [ResolveLine]);
      assert printed == Report(checks);
      return printed, 1;
    }
    printed := printed + [ReadyLine];
    return printed, 0;
  }

  /** The checking half of `main`: the ten checks, appended in order. */
  method RunChecks(env: Env) returns (checks: seq<CheckResult>)
    ensures checks == Checks(env)
  {
    checks := [];
    var sdk := CheckAlternativeEnv(env, SdkVars, "Android SDK");
    checks := checks + [sdk];
    var ndk := CheckAlternativeEnv(env, NdkVars, "Android NDK");
    checks := checks + [ndk];
    var jdk := CheckEnvVar(env, "JAVA_HOME", "JDK");
    checks := checks + [jdk];
    var cmake := CheckCommand(env, "cmake", "CMake", None);
    checks := checks + [cmake];
    var adb := CheckCommand(env, "adb", "Android Debug Bridge", None);
    checks := checks + [adb];
    var rustup := CheckCommand(env, "rustup", "Rust toolchain", Some(RustupTargetCheck));
    checks := checks + [rustup];
    var local := CheckLocalProperties(env);
    checks := checks + [local];
    var mlc4j := CheckPathExists(env, Mlc4jDist(env), "Packaged mlc4j Android library", Some(Mlc4jSuggestion));
    checks := checks + [mlc4j];
    var config := CheckPathExists(env, PackageConfig(env), "Model packaging configuration", Some(PackageConfigSuggestion));
    checks := checks + [config];
    var gradle := RunGradleHelp(env);
    checks := checks + [gradle];
    AppendTen(sdk, ndk, jdk, cmake, adb, rustup, local, mlc4j, config, gradle);
    ChecksInOrder(env);
  }

  /** `main`: run the checks, print the report, return the exit code. The
      banner, printed first, is the first element of `printed`; no check
      prints anything itself. */
  method Diagnose(env: Env) returns (checks: seq<CheckResult>, printed: seq<string>, code: int)
    ensures checks == Checks(env)
    ensures printed == Report(checks)
    ensures code == ExitCode(checks)
  {
    checks := RunChecks(env);
    printed, code := PrintReport(checks);
  }
}
