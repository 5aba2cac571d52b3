# Android build diagnostic — a verified model

`android/diagnose_android_build.py` checks whether a machine is ready to build
the MLC-LLM Android app. It runs ten checks in a fixed order. Each check
looks at the machine and returns a `CheckResult` made of:
- a name;
- a status, `OK`, `WARN` or `FAIL`;
- details;
- an optional suggestion.

The checks are:
1. the Android SDK variables;
2. the Android NDK variables;
3. `JAVA_HOME`;
4. `cmake`;
5. `adb`;
6. `rustup`, with its installed-target test;
7. `local.properties` and its `sdk.dir` entry;
8. the packaged mlc4j library;
9. the model packaging configuration;
10. the Gradle wrapper, whose `--version` output gives the details.

`main` prints a report: one line per check, then a summary that lists the
suggestions of the checks that are not ok. It returns 1 when some check is
not ok, and 0 otherwise.

The model has three files:

- `wrappers.dfy` (`Wrappers`): `Option` and dictionary `get`.
- `pytext.dfy` (`PyText`): the Python string operations the program relies on. These are:
  - `str.strip`, over the full set of characters `str.isspace` accepts;
  - `str.split()`;
  - `str.splitlines`, with every line boundary Python recognises, and `\r\n` counted as one;
  - `str.split(sep, 1)`;
  - `sep.join`;
  - the substring test `sub in s`;
  - letter-case mapping;
  - `c * n`.
- `diagnostic.dfy` (`AndroidDiagnostic`): the results, the checks, `main` and its report.

`Wrappers.Get`, `PyText.Lower`, `PyText.Upper`, `PyText.Repeat` and
`PyText.BreakLength` are primitives. Their contracts define them and state
nothing beyond the definition, so they have no row in the table below.
`LowerUpperAgree` states what the program relies on from case mapping;
`CaseForgotten` is a further property of the ASCII case maps.
`SplitLinesRebuild` and `SplitLinesUnsplit` state what the program relies on
from line boundaries.

The machine is an `Env` value. Its fields hold:
- the environment variables;
- the set of paths that exist, written as the program looks them up;
- the home directories that `~` and `~name` stand for;
- what `shutil.which` finds;
- the text of `local.properties`, if the file exists;
- the outcome of the two subprocess runs: standard output, or the text of the exception that reports the failure;
- the repository root.

Each check is a function of the `Env`, and the rest are built on those functions:
- `check_env_var`, `check_command` with its rustup test, `check_path_exists`, `run_gradle_help`'s line selection, `is_ok` and `_format_result` are functions.
- The loops become methods, each proved equal to a specification function. The loops are:
  - the scan over the variables in `check_alternative_env`;
  - the scan over the lines of `local.properties`;
  - the ten appends of `main`;
  - the two printing loops of `main`.
- Lemmas relate the specification functions to what the program promises. Examples:
  - the first variable with a value decides the result;
  - the first `sdk.dir=` line wins;
  - the rustup target must appear as a whole word;
  - the exit code is 0 exactly when every check's condition holds.

`print` is modelled as the sequence of strings `main` hands to it, in order.

## Model

| member | source | states |
|---|---|---|
| PyText.StripStartSpec | android/diagnose_android_build.py:149 | the left half of `strip` keeps the longest suffix that does not start with whitespace, and what it drops is all whitespace |
| PyText.StripEndSpec | android/diagnose_android_build.py:149 | the right half keeps the longest prefix that does not end with whitespace, and what it drops is all whitespace |
| PyText.StripSpec | android/diagnose_android_build.py:149 | `s.strip()` is the infix of `s` between an all-whitespace prefix and an all-whitespace suffix, and neither starts nor ends with whitespace |
| PyText.Strip | android/diagnose_android_build.py:149 | no contract of its own: `str.strip()`; its properties are stated by `StripSpec`, `StripFixedPoint`, `StripIdempotent` and `StripEmptyIff` (it is also used at line 193) |
| PyText.StripFixedPoint | android/diagnose_android_build.py:193 | `strip` leaves a string unchanged exactly when it has no whitespace at either end |
| PyText.StripIdempotent | android/diagnose_android_build.py:193 | stripping twice is stripping once |
| PyText.StripEmptyIff | android/diagnose_android_build.py:193 | `line.strip()` is empty (the line is dropped) exactly when the line is all whitespace |
| PyText.Split | android/diagnose_android_build.py:110 | every token of `split()` is non-empty and free of whitespace |
| PyText.SplitYieldsWords | android/diagnose_android_build.py:110-111 | every token of `s.split()` occurs in `s` as a whole whitespace-delimited word |
| PyText.WordsAreSplit | android/diagnose_android_build.py:110-111 | every whole whitespace-delimited word of `s` is a token of `s.split()` |
| PyText.InSplitIff | android/diagnose_android_build.py:110-111 | `t in s.split()` holds exactly when `t` occurs in `s` as a whole word |
| PyText.SplitJoin | android/diagnose_android_build.py:110 | splitting words joined by single spaces gives the same words back, in order |
| PyText.SplitLines | android/diagnose_android_build.py:147 | no contract of its own: `str.splitlines()` (also line 193); its properties are stated by `SplitLinesRebuild`, `SplitLinesUnsplit`, `SplitLinesNoBreak` and `SplitLinesTerminated` |
| PyText.SplitLinesRebuild | android/diagnose_android_build.py:147 | the lines of `splitlines()`, put back together with the boundaries it removed, rebuild the text; no line holds a boundary, only a non-empty last line lacks one, and a `\r` boundary is never followed by `\n` |
| PyText.SplitLinesUnsplit | android/diagnose_android_build.py:147 | conversely, any such cut of a text is the one `splitlines()` finds: the same lines and the same boundaries |
| PyText.SplitLinesNoBreak | android/diagnose_android_build.py:147 | no line of `splitlines()` contains a line boundary |
| PyText.Join | android/diagnose_android_build.py:77 | no contract of its own: `sep.join(parts)`; its properties are stated by `SplitJoin` and `ReadableNames` |
| PyText.SplitLinesTerminated | android/diagnose_android_build.py:147 | splitting newline-terminated lines gives the lines back, blank ones included, with no extra final line |
| PyText.SplitOnce | android/diagnose_android_build.py:149 | `s.split(c, 1)` has one part, `s` itself, exactly when `c` does not occur; otherwise two parts that rebuild `s` around its first `c` |
| PyText.SplitOnceAfterPrefix | android/diagnose_android_build.py:148-149 | on a line that starts with `sdk.dir=`, the second part of `split("=", 1)` is the text after the key |
| PyText.Contains | android/diagnose_android_build.py:194 | no contract of its own: the substring test `sub in s`, defined as an occurrence at some index |
| PyText.LowerUpperAgree | android/diagnose_android_build.py:32 | a string lowers to a lower-case word exactly when it uppers to that word's upper-case form |
| PyText.CaseForgotten | android/diagnose_android_build.py:32 | for the ASCII case maps only: lowering ignores how the text was cased, and so does upper-casing. Python's full mapping breaks this (`"ß".upper().lower() == "ss"`); the program never relies on it |
| AndroidDiagnostic.StatusText | android/diagnose_android_build.py:35-37 | the three status texts are upper-case and hold no `]` |
| AndroidDiagnostic.IsOkText | android/diagnose_android_build.py:30-32 | `status.lower() == "ok"` holds exactly for two-letter texts `o`/`O` followed by `k`/`K` |
| AndroidDiagnostic.OkTextIffTag | android/diagnose_android_build.py:30-41 | a status is ok exactly when its upper-case form, the one the report prints, is `OK` |
| AndroidDiagnostic.IsOk | android/diagnose_android_build.py:30-32 | of the three statuses, only `OK` is ok |
| AndroidDiagnostic.StatusTag | android/diagnose_android_build.py:43 | the bracketed tag read back from a report line holds no `]` |
| AndroidDiagnostic.HasSuggestion | android/diagnose_android_build.py:42 | no contract of its own: the suggestion is present and non-empty, so it is truthy; used by `FormatLayout` and `SummaryLinesMatch` |
| AndroidDiagnostic.SuggestionSuffix | android/diagnose_android_build.py:42 | no contract of its own: the ` Suggestion: ...` suffix, empty without a truthy suggestion; its effect is stated by `FormatLayout` |
| AndroidDiagnostic.FormatResult | android/diagnose_android_build.py:40-43 | no contract of its own: `_format_result`; its properties are stated by `FormatTagRoundTrip`, `FormatShowsOk` and `FormatLayout` |
| AndroidDiagnostic.FormatTagRoundTrip | android/diagnose_android_build.py:40-43 | the tag of a formatted line reads back the status text |
| AndroidDiagnostic.FormatShowsOk | android/diagnose_android_build.py:40-43 | a line is tagged `[OK]` exactly when its result is ok, and the tag tells the three statuses apart |
| AndroidDiagnostic.FormatLayout | android/diagnose_android_build.py:40-43 | the line has the fixed frame, its length is that of its parts, and it ends with the suggestion exactly when there is a non-empty suggestion (otherwise with the full stop) |
| AndroidDiagnostic.PathJoin | android/diagnose_android_build.py:15-17 | no contract of its own: `a / b` on a path, one `/` between the parts |
| AndroidDiagnostic.AppRoot | android/diagnose_android_build.py:14-16 | no contract of its own: `REPO_ROOT / "android" / "MLCChat"` |
| AndroidDiagnostic.PathExists | android/diagnose_android_build.py:127 | no contract of its own: `path.exists()` (also lines 153 and 171, and inside `ExpandedExists`), membership in the `existing` set of paths |
| AndroidDiagnostic.Configured | android/diagnose_android_build.py:48 | no contract of its own: the variable is set and its value is truthy (non-empty), the test `value` at lines 48, 50, 67 and 70 |
| AndroidDiagnostic.OnPath | android/diagnose_android_build.py:88 | no contract of its own: `shutil.which(name)` gave a truthy path |
| AndroidDiagnostic.StripTrailingSlashes | android/diagnose_android_build.py:48 | no contract of its own: the `rstrip("/")` that `expanduser` applies to the home directory |
| AndroidDiagnostic.HomeOf | android/diagnose_android_build.py:48 | no contract of its own: the home directory `expanduser` looks up: `$HOME` if set, else the current user's password entry, and the named user's entry for `~name` |
| AndroidDiagnostic.ExpandedExists | android/diagnose_android_build.py:48 | no contract of its own: `Path(value).expanduser().exists()` (also line 68); a value whose expansion raises counts as a missing path, as `CheckEnvVar`'s Left-out line records |
| AndroidDiagnostic.ExpandUser | android/diagnose_android_build.py:48 | a path that does not start with `~` is left unchanged; expansion fails only for a path that starts with `~` |
| AndroidDiagnostic.ExpandHome | android/diagnose_android_build.py:48 | `~/rest` expands to `rest` under `$HOME` when `HOME` is an absolute directory without a trailing slash |
| AndroidDiagnostic.ExpandUnknownUser | android/diagnose_android_build.py:68 | `~name` or `~name/...` for a user with no password entry cannot be expanded |
| AndroidDiagnostic.FoundAt | android/diagnose_android_build.py:49 | no contract of its own: the OK result `found at`; its use is stated by `CheckEnvVar` and `AlternativeEnvResult` |
| AndroidDiagnostic.MissingPath | android/diagnose_android_build.py:50-56 | no contract of its own: the WARN result `does not exist` with its fixed suggestion; its use is stated by `CheckEnvVar` and `AlternativeEnvResult` |
| AndroidDiagnostic.CheckEnvVar | android/diagnose_android_build.py:46-62 | named after the variable; OK when set, non-empty and, after `~` expansion, an existing path; WARN when set and non-empty and the expanded path is missing or cannot be expanded; FAIL when unset or empty, with the suggestion naming the variable |
| AndroidDiagnostic.TildeVariableExpanded | android/diagnose_android_build.py:46-49 | with `HOME=/home/dev`, `JAVA_HOME=~/sdk` passes when `/home/dev/sdk` exists: the variable's value is expanded |
| AndroidDiagnostic.FirstConfigured | android/diagnose_android_build.py:66-70 | finds the first variable with a non-empty value, or none exactly when every variable is unset or empty |
| AndroidDiagnostic.NotConfigured | android/diagnose_android_build.py:77-83 | no contract of its own: the FAIL result named by the variables joined by ` or `; its use is stated by `AlternativeEnvResult` and `ReadableNames` |
| AndroidDiagnostic.AlternativeEnvResult | android/diagnose_android_build.py:65-83 | FAIL exactly when no variable has a value, named by the variables joined by ` or `; otherwise named after the deciding variable and OK exactly when its value, after `~` expansion, is an existing path, else WARN |
| AndroidDiagnostic.LaterVariablesIgnored | android/diagnose_android_build.py:66-76 | two machines that agree on the variables up to the deciding one, and on whether its path exists, get the same result, whatever the later variables hold |
| AndroidDiagnostic.CheckAlternativeEnv | android/diagnose_android_build.py:65-83 | the loop with its early returns computes `AlternativeEnvResult` |
| AndroidDiagnostic.CheckCommand | android/diagnose_android_build.py:86-123 | named after the command; FAIL exactly when it is not on PATH; with the rustup test, OK exactly when the run succeeded and the target is a token of its output, else WARN (a failed run included); OK with no post-check |
| AndroidDiagnostic.RustTargetListed | android/diagnose_android_build.py:110-111 | the rustup check passes exactly when the target occurs in the output as a whole word |
| AndroidDiagnostic.CheckPathExists | android/diagnose_android_build.py:126-134 | named after the path; OK exactly when it exists, WARN exactly when it does not, never FAIL; the given suggestion is attached when it is missing |
| AndroidDiagnostic.SdkDirValue | android/diagnose_android_build.py:149 | the value of an entry is the stripped text after `sdk.dir=` |
| AndroidDiagnostic.FirstEntry | android/diagnose_android_build.py:147-148 | finds the first line that starts with `sdk.dir=`, or none exactly when no line does |
| AndroidDiagnostic.SdkDir | android/diagnose_android_build.py:146-150 | there is an sdk dir exactly when some line starts with `sdk.dir=`, and it is the stripped value of the first such line |
| AndroidDiagnostic.SdkDirFirstWins | android/diagnose_android_build.py:147-150 | lines after the first entry, other entries included, change nothing; without an entry, the answer is that of the lines that follow |
| AndroidDiagnostic.FindSdkDir | android/diagnose_android_build.py:146-150 | the loop that breaks at the first entry computes `SdkDir` |
| AndroidDiagnostic.LocalPropertiesResult | android/diagnose_android_build.py:137-166 | named after the file; never FAIL; OK exactly when the file exists and its sdk dir is non-empty and exists as written, with no `~` expansion; "sdk.dir entry missing" exactly when the file exists and the entry is absent or blank |
| AndroidDiagnostic.CheckLocalProperties | android/diagnose_android_build.py:137-166 | the method computes `LocalPropertiesResult` |
| AndroidDiagnostic.LocalPropertiesPath | android/diagnose_android_build.py:138 | no contract of its own: `APP_ROOT / "local.properties"`; the check's name, as `LocalPropertiesCheckName` states |
| AndroidDiagnostic.TildeSdkDirSplit | android/diagnose_android_build.py:147 | the text `sdk.dir=~/sdk` with a final newline splits into that single line |
| AndroidDiagnostic.SdkDirOfEntry | android/diagnose_android_build.py:148-149 | a file whose only line is `sdk.dir=` followed by `v` has the sdk dir `v`, stripped |
| AndroidDiagnostic.TildeSdkStripped | android/diagnose_android_build.py:149 | stripping leaves `~/sdk` unchanged |
| AndroidDiagnostic.TildeSdkDirValue | android/diagnose_android_build.py:146-150 | the single line `sdk.dir=~/sdk` gives the sdk dir `~/sdk` |
| AndroidDiagnostic.TildeSdkDirNotExpanded | android/diagnose_android_build.py:151-160 | an `sdk.dir=~/sdk` entry is looked up as written: WARN when no path `~/sdk` exists, whatever `$HOME` holds |
| AndroidDiagnostic.NonBlankStripped | android/diagnose_android_build.py:193 | the kept lines are all non-empty |
| AndroidDiagnostic.FirstContaining | android/diagnose_android_build.py:194 | `next(...)` is `None` exactly when no line contains the text; otherwise it is one of the lines and contains it |
| AndroidDiagnostic.FirstContainingStripped | android/diagnose_android_build.py:193-194 | the selected line is the stripped form of the first raw line whose stripped form contains the text |
| AndroidDiagnostic.NoneContainingStripped | android/diagnose_android_build.py:193-194 | nothing is selected when no stripped line contains the text |
| AndroidDiagnostic.FirstNonBlank | android/diagnose_android_build.py:193 | the first kept line is the stripped form of the first non-blank raw line |
| AndroidDiagnostic.AllBlank | android/diagnose_android_build.py:193 | no line is kept when every line is blank |
| AndroidDiagnostic.GradleDetails | android/diagnose_android_build.py:193-196 | the details of a successful run are never empty |
| AndroidDiagnostic.GradleDetailsVersionLine | android/diagnose_android_build.py:193-194 | the details are the first stripped output line that contains "Gradle" |
| AndroidDiagnostic.GradleDetailsFirstLine | android/diagnose_android_build.py:195-196 | if no line contains "Gradle", the details are the first non-blank line, stripped |
| AndroidDiagnostic.GradleDetailsBlankOutput | android/diagnose_android_build.py:196 | for blank output, the details are "Gradle wrapper executed successfully" |
| AndroidDiagnostic.RunGradleHelp | android/diagnose_android_build.py:169-197 | FAIL, named after the wrapper path, exactly when the wrapper is missing; WARN, named `gradlew --version`, exactly when it exists and the run fails; OK, named `gradlew` with the selected details, exactly when it exists and the run completes |
| AndroidDiagnostic.GradlewPath | android/diagnose_android_build.py:170 | no contract of its own: `APP_ROOT / "gradlew"`; the check's name when it is missing, as `GradleCheckName` states |
| AndroidDiagnostic.Mlc4jDist | android/diagnose_android_build.py:17 | no contract of its own: `APP_ROOT / "dist" / "lib" / "mlc4j"`; the eighth check's name, as `Mlc4jCheckName` states |
| AndroidDiagnostic.PackageConfig | android/diagnose_android_build.py:228 | no contract of its own: `APP_ROOT / "mlc-package-config.json"`; the ninth check's name, as `PackageConfigCheckName` states |
| AndroidDiagnostic.CheckAt | android/diagnose_android_build.py:203-234 | no contract of its own: check `i` of `main`; its properties are stated by `CheckOkIff` and the name lemmas |
| AndroidDiagnostic.Checks | android/diagnose_android_build.py:203-234 | no contract of its own: the ten results; `ChecksInOrder` and `RunChecks` state that they are what `main` appends |
| AndroidDiagnostic.Failing | android/diagnose_android_build.py:240 | the failing list holds exactly the results that are not ok |
| AndroidDiagnostic.FailingAppend | android/diagnose_android_build.py:240 | the failing list of `a + b` is that of `a` followed by that of `b`, so it keeps the checks' order and multiplicity |
| AndroidDiagnostic.FailingOne | android/diagnose_android_build.py:240 | a single check is in the failing list exactly when it is not ok; with `FailingAppend` this fixes the list completely |
| AndroidDiagnostic.ExitCode | android/diagnose_android_build.py:241-250 | no contract of its own: 1 when the failing list is non-empty, else 0; its properties are stated by `ExitCodeIff` and `ExitZeroIffReady` |
| AndroidDiagnostic.ExitCodeIff | android/diagnose_android_build.py:240-250 | the exit code is 0 or 1, and 1 exactly when some result is not ok |
| AndroidDiagnostic.AlternativeNames | android/diagnose_android_build.py:65-83 | an alternative check is named after one of its variables or after all of them joined by ` or ` |
| AndroidDiagnostic.ReadableNames | android/diagnose_android_build.py:77 | the two unset-variable names read "ANDROID_SDK_ROOT or ANDROID_HOME" and "ANDROID_NDK or ANDROID_NDK_HOME" |
| AndroidDiagnostic.VariableCheckNames | android/diagnose_android_build.py:205-207 | the first three checks are named after their environment variables |
| AndroidDiagnostic.CommandCheckNames | android/diagnose_android_build.py:209-211 | checks four to six are named `cmake`, `adb` and `rustup` |
| AndroidDiagnostic.LocalPropertiesCheckName | android/diagnose_android_build.py:213 | the seventh is named after `local.properties` |
| AndroidDiagnostic.Mlc4jCheckName | android/diagnose_android_build.py:215-224 | the eighth is named after the mlc4j directory |
| AndroidDiagnostic.PackageConfigCheckName | android/diagnose_android_build.py:226-232 | the ninth is named after `mlc-package-config.json` |
| AndroidDiagnostic.GradleCheckName | android/diagnose_android_build.py:234 | the tenth is named after the wrapper path, `gradlew --version` or `gradlew` |
| AndroidDiagnostic.AlternativeOk | android/diagnose_android_build.py:65-76 | an alternative check passes exactly when the deciding variable's path exists |
| AndroidDiagnostic.CheckOkIff | android/diagnose_android_build.py:203-234 | each of the ten checks passes exactly when the machine meets that check's condition |
| AndroidDiagnostic.ExitZeroIffReady | android/diagnose_android_build.py:200-250 | `main` returns 0 exactly when the machine meets all ten conditions |
| AndroidDiagnostic.ChecksInOrder | android/diagnose_android_build.py:203-234 | the result list is the ten checks in the order `main` appends them |
| AndroidDiagnostic.RunChecks | android/diagnose_android_build.py:203-234 | the ten appends build exactly that list |
| AndroidDiagnostic.SuggestionLine | android/diagnose_android_build.py:245 | no contract of its own: the line `  - name: suggestion` |
| AndroidDiagnostic.SummaryLines | android/diagnose_android_build.py:243-245 | no contract of its own: the suggestion lines of the failing checks; its properties are stated by `SummaryLinesMatch` |
| AndroidDiagnostic.SummaryLinesMatch | android/diagnose_android_build.py:243-245 | a line is printed for a failing check exactly when it has a non-empty suggestion, every printed line belongs to such a check, and there are no more lines than failing checks |
| AndroidDiagnostic.SummaryLinesAppend | android/diagnose_android_build.py:243-245 | the suggestion lines of `a + b` are those of `a` followed by those of `b`, so they follow the failing checks' order |
| AndroidDiagnostic.SummaryLinesOne | android/diagnose_android_build.py:244-245 | one failing check prints `  - name: suggestion` exactly when it has a truthy suggestion, and nothing otherwise; with `SummaryLinesAppend` this fixes the lines completely |
| AndroidDiagnostic.MapAt | android/diagnose_android_build.py:237-238 | the list a `for` loop builds by appending `f(x)` has one element per input, and element `i` is `f` of input `i` |
| AndroidDiagnostic.FormatLines | android/diagnose_android_build.py:237-238 | no contract of its own: one formatted line per check; its properties are stated by `ReportLayout` and `PrintChecks` |
| AndroidDiagnostic.Report | android/diagnose_android_build.py:236-250 | no contract of its own: everything `main` prints; its properties are stated by `ReportLayout`, `ReportEnd` and `PrintReport` |
| AndroidDiagnostic.SummarySection | android/diagnose_android_build.py:240-250 | the summary is the single ready line when every check passes; otherwise it is two lines longer than the suggestion lines and ends with the resolve line |
| AndroidDiagnostic.ReportLayout | android/diagnose_android_build.py:201-238 | the report opens with the banner and the heading, then shows every check, in order |
| AndroidDiagnostic.ReportEnd | android/diagnose_android_build.py:236-250 | the report has three more lines than there are checks, or four more plus one per suggestion when some check fails; its last line matches the exit code |
| AndroidDiagnostic.PrintChecks | android/diagnose_android_build.py:237-238 | the first printing loop prints one formatted line per check |
| AndroidDiagnostic.PrintSuggestions | android/diagnose_android_build.py:243-245 | the second prints one line per failing check that has a suggestion |
| AndroidDiagnostic.PrintReport | android/diagnose_android_build.py:236-250 | the printing half of `main` prints the report and returns the exit code |
| AndroidDiagnostic.Diagnose | android/diagnose_android_build.py:200-250 | `main` builds the ten results, prints the report, and returns the exit code |

## Left out

- Real I/O becomes fields of `Env`: environment variables, path existence, `shutil.which`, file reading and the two subprocess runs. `print` becomes the returned list of printed strings.
- `Path.expanduser()` is modelled by `ExpandUser` as a text operation, for POSIX only, as Python 3.10 and later do it: `os.path.expanduser` on the first component, with the home directory's trailing slashes stripped, `/` when nothing is left, and a `RuntimeError` when a `~` remains. Python 3.9 does not strip the home directory, so with `HOME` empty `~/sdk` becomes `sdk` there and `/sdk` in the model. The Windows rules (`USERPROFILE`, `HOMEDRIVE`) are not modelled. The password database is the `userHome` and `homes` inputs.
- `Path` normalisation is not modelled, neither in `Path(value)` nor in `str(path)`: a path is the text the model builds, with `/` between the parts. So repeated slashes and `.` parts are not collapsed before the lookup. Normalisation also decides whether `~` is expanded at all: `Path("./~/sdk")` drops the `.` and so expands to `$HOME/sdk`, which `ExpandUser` leaves unchanged; and `Path("~/")` drops the trailing slash and expands to `$HOME`, where `ExpandUser` gives `$HOME/`.
- ExpandedExists, CheckEnvVar, AlternativeEnvResult: when the home directory for `~` or `~name` cannot be determined, `Path.expanduser()` raises a `RuntimeError`. This happens with no `HOME` and no password entry, and with a value such as `~nosuchuser/jdk`. The program does not catch the error, so `main` stops with a traceback. The model treats such a value as a missing path, and the check returns WARN.
- PyText.Lower, PyText.Upper: letter case is mapped for ASCII letters only. Python's full Unicode case mapping is not modelled, including mappings that change the length, such as `"ß".upper() == "SS"`.
- `REPO_ROOT` comes from `__file__` in the program. Here it is the `repoRoot` input.
- The model assumes the text of `local.properties` is present exactly when the file exists. Reading it can fail on bad UTF-8 or missing permissions, and those uncaught exceptions are left out.
- `check_command` with the rustup test: a `FileNotFoundError` from `subprocess.run` is not caught by the program and is not modelled. Only `CalledProcessError` becomes the `Failed` outcome.
- `run_gradle_help`: exceptions other than `FileNotFoundError` and `CalledProcessError`, such as `PermissionError`, are not caught by the program and are not modelled.
- PathExists, ExpandedExists: `Path.exists()` answers only yes or no in the model. In the program it re-raises any `OSError` other than a missing file or directory, a bad descriptor or a symlink loop, for example a `PermissionError`. That error is not caught at lines 48, 68, 127, 139, 153 or 171 of `android/diagnose_android_build.py`, so `main` would stop with a traceback.
- The exception text embedded in the two suggestions is an opaque string supplied by the `Failed` outcome.
- CheckResult: its `status` is one of the three statuses wherever the program builds one, so the model uses a three-valued type with its text. `IsOkText` covers `is_ok` on arbitrary status text.
- IsOkText: letter case is mapped for ASCII letters only. Python's `lower()` also maps KELVIN SIGN (U+212A) to `k`, so a status spelled `o` followed by that sign counts as ok in the program but not in the model. The statuses the program builds are ASCII.
- The router (`python/mlc_llm/router/router.py`) is not part of this model, nor is its test.
- The Java stubs `Function.java` and `Device.java` hold no logic and are not part of this model.
- `main` prints the banner before it runs the checks. The model runs the checks first and then produces every printed string. No check prints anything, so the printed sequence is the same; only the timing of the banner differs.
