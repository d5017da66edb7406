/**
 * The decisions of the import script (`import_conda_env.py`): which manifest is used,
 * which environment name is chosen, which Python version is read from a requirements
 * file, and the argument vectors handed to the environment manager.
 *
 * The answers to the two prompts arrive as strings, the existence of the two manifest
 * files as booleans, the `name` field of a parsed `environment.yml` as an optional
 * string and `requirements.txt` as its text; the commands are returned instead of run.
 */
module ImportEnv {
  import opened Wrappers
  import opened Text

  /** The name used when neither the user nor the file supplies one. */
  const DefaultEnvName := "imported_env"

  /** The two manifest files, looked up in the working directory. */
  const EnvironmentYmlPath := "environment.yml"
  const RequirementsTxtPath := "requirements.txt"

  // ---------------------------------------------------------------------------
  // The environment name
  // ---------------------------------------------------------------------------

  /**
   * `create_env_from_yml`: the stripped answer to the prompt when it is not empty,
   * otherwise the file's `name` field, otherwise `imported_env`.
   */
  function YmlEnvName(userInput: string, nameField: Option<string>): string
  {
    var newName := Strip(userInput);
    if newName != "" then newName else nameField.GetOr(DefaultEnvName)
  }

  /** `create_env_from_requirements`: the stripped answer, or `imported_env` when it is empty. */
  function RequirementsEnvName(userInput: string): string
  {
    var envName := Strip(userInput);
    if envName == "" then DefaultEnvName else envName
  }

  /** The answer is blank when every character of it is whitespace, so it does not count. */
  predicate IsBlank(s: string)
  {
    forall i :: 0 <= i < |s| ==> IsSpace(s[i])
  }

  /**
   * A blank answer keeps the file's name (or the default); any other answer wins and is
   * used without surrounding whitespace.
   */
  lemma YmlEnvNameChoice(userInput: string, nameField: Option<string>)
    ensures IsBlank(userInput) ==>
              YmlEnvName(userInput, nameField) == if nameField.Some? then nameField.value else DefaultEnvName
    ensures !IsBlank(userInput) ==>
              var name := YmlEnvName(userInput, nameField);
              name == Strip(userInput) && name != [] && !IsSpace(name[0]) && !IsSpace(name[|name| - 1])
  {
    StripBlank(userInput);
  }

  /** The requirements path never ends up with an empty name. */
  lemma RequirementsEnvNameChoice(userInput: string)
    ensures IsBlank(userInput) ==> RequirementsEnvName(userInput) == DefaultEnvName
    ensures !IsBlank(userInput) ==> RequirementsEnvName(userInput) == Strip(userInput) != []
    ensures RequirementsEnvName(userInput) != []
  {
    StripBlank(userInput);
  }

  // ---------------------------------------------------------------------------
  // The Python version of a requirements file
  // ---------------------------------------------------------------------------

  /** `line.lower().startswith("python==") or line.lower().startswith("python>=")`. */
  predicate IsPythonPin(line: string)
  {
    "python==" <= Lower(line) || "python>=" <= Lower(line)
  }

  /** `line.split("==")[-1] if "==" in line else line.split(">=")[-1]`. */
  function PinnedVersion(line: string): string
  {
    if Contains(line, "==") then LastPiece(line, "==") else LastPiece(line, ">=")
  }

  /**
   * The version is the text after the last `==` of a line that has one, and otherwise the
   * text after the last `>=`; either way it is a tail of the line without that operator.
   */
  lemma PinnedVersionTail(line: string)
    ensures var v := PinnedVersion(line);
            |v| <= |line| && v == line[|line| - |v|..]
    ensures Contains(line, "==") ==>
              var v := PinnedVersion(line);
              !Contains(v, "==") && |v| + 2 <= |line| && OccursAt(line, "==", |line| - |v| - 2)
    ensures !Contains(line, "==") ==> !Contains(PinnedVersion(line), ">=")
    ensures !Contains(line, "==") && Contains(line, ">=") ==>
              var v := PinnedVersion(line);
              |v| + 2 <= |line| && OccursAt(line, ">=", |line| - |v| - 2)
  {
    if Contains(line, "==") {
      VersionAfterLast(line, "==");
    } else {
      VersionAfterLast(line, ">=");
    }
  }

  /** The tail facts of `split(op)[-1]` for the operator the line is split on. */
  lemma VersionAfterLast(line: string, op: string)
    requires op == (if Contains(line, "==") then "==" else ">=")
    ensures PinnedVersion(line) == LastPiece(line, op)
    ensures var v := LastPiece(line, op);
            && |v| <= |line| && v == line[|line| - |v|..] && !Contains(v, op)
            && (Contains(line, op) ==> |v| + 2 <= |line| && OccursAt(line, op, |line| - |v| - 2))
  {
    LastPieceSuffix(line, op);
  }

  /** The version read from the first pinning line, by the rules of the loop at lines 72-77. */
  function FirstPythonPin(lines: seq<string>): Option<string>
  {
    if |lines| == 0 then None
    else
      var line := Strip(lines[0]);
      if IsPythonPin(line) then Some(PinnedVersion(line)) else FirstPythonPin(lines[1..])
  }

  /**
   * The scan over the lines of `requirements.txt` (lines 71-77): the version comes from
   * the first stripped line that pins Python, and the scan stops there; with no such line
   * there is no version.
   */
  method ScanPythonVersion(lines: seq<string>) returns (pythonVersion: Option<string>)
    ensures pythonVersion == FirstPythonPin(lines)
    ensures pythonVersion.None? <==> forall i :: 0 <= i < |lines| ==> !IsPythonPin(Strip(lines[i]))
    ensures pythonVersion.Some? ==>
              exists i :: FirstPinAt(lines, i) && pythonVersion.value == PinnedVersion(Strip(lines[i]))
  {
    pythonVersion := None;
    for k := 0 to |lines|
      invariant FirstPythonPin(lines[k..]) == FirstPythonPin(lines)
    {
      var line := Strip(lines[k]);
      if IsPythonPin(line) {
        pythonVersion := Some(PinnedVersion(line));
        break;
      }
      assert lines[k..][1..] == lines[k + 1..];
    }
    FirstPythonPinNone(lines);
    FirstPythonPinFirst(lines);
  }

  /** `FirstPythonPin` finds nothing exactly when no stripped line pins Python. */
  lemma {:induction false} FirstPythonPinNone(lines: seq<string>)
    ensures FirstPythonPin(lines).None? <==> forall i :: 0 <= i < |lines| ==> !IsPythonPin(Strip(lines[i]))
    decreases |lines|
  {
    if |lines| > 0 && !IsPythonPin(Strip(lines[0])) {
      var rest := lines[1..];
      FirstPythonPinNone(rest);
      assert forall i :: 1 <= i < |lines| ==> lines[i] == rest[i - 1];
    }
  }

  /** Line `i` is the first line that, stripped, pins Python. */
  predicate FirstPinAt(lines: seq<string>, i: int)
  {
    && 0 <= i < |lines|
    && IsPythonPin(Strip(lines[i]))
    && (forall j :: 0 <= j < i ==> !IsPythonPin(Strip(lines[j])))
  }

  /** When `FirstPythonPin` finds a version, it is read from the first line that pins Python. */
  lemma {:induction false} FirstPythonPinFirst(lines: seq<string>)
    ensures FirstPythonPin(lines).Some? ==>
              exists i :: FirstPinAt(lines, i) && FirstPythonPin(lines).value == PinnedVersion(Strip(lines[i]))
    decreases |lines|
  {
    if |lines| > 0 {
      if IsPythonPin(Strip(lines[0])) {
        assert FirstPinAt(lines, 0);
      } else {
        var rest := lines[1..];
        FirstPythonPinFirst(rest);
        if FirstPythonPin(rest).Some? {
          var i :| FirstPinAt(rest, i) && FirstPythonPin(rest).value == PinnedVersion(Strip(rest[i]));
          FirstPinAtAfterMiss(lines, i);
          assert lines[i + 1] == rest[i];
        }
      }
    }
  }

  /** After a first line that does not pin Python, the first pin of the rest is the first pin. */
  lemma FirstPinAtAfterMiss(lines: seq<string>, i: int)
    requires |lines| > 0 && !IsPythonPin(Strip(lines[0]))
    requires FirstPinAt(lines[1..], i)
    ensures FirstPinAt(lines, i + 1)
  {
    var rest := lines[1..];
    assert lines[i + 1] == rest[i];
    forall j | 0 <= j < i + 1
      ensures !IsPythonPin(Strip(lines[j]))
    {
      if j > 0 {
        assert lines[j] == rest[j - 1];
      }
    }
  }

  /** `f"python={python_version}" if python_version else "python"` (line 79). */
  function PythonSpec(pythonVersion: Option<string>): string
  {
    if pythonVersion.Some? && pythonVersion.value != "" then "python=" + pythonVersion.value else "python"
  }

  /** Lowering works character by character, so it distributes over concatenation. */
  lemma LowerConcat(a: string, b: string)
    ensures Lower(a + b) == Lower(a) + Lower(b)
  {
    var l, r := Lower(a + b), Lower(a) + Lower(b);
    forall i | 0 <= i < |l| ensures l[i] == r[i] {
      if i < |a| {
        assert r[i] == Lower(a)[i];
      } else {
        assert r[i] == Lower(b)[i - |a|];
      }
    }
  }

  /** A two-character operator ending in `=` is never found in text without `=`. */
  lemma NoOperatorWithoutEquals(v: string, op: string)
    requires |op| == 2 && op[1] == '='
    requires '=' !in v
    ensures FindFirst(v, op).None?
  {
    forall j: nat ensures !OccursAt(v, op, j) {
      if j + 2 <= |v| {
        assert v[j..j + 2][1] == v[j + 1];
      }
    }
  }

  /** After a head without `=`, the first `==` or `>=` is the one that follows it. */
  lemma OperatorAfterHead(head: string, op: string, v: string)
    requires op == "==" || op == ">="
    requires '=' !in head
    ensures FindFirst(head + op + v, op) == Some(|head|)
  {
    var s := head + op + v;
    assert s[|head|..|head| + 2] == op;
    assert OccursAt(s, op, |head|);
    forall j: nat | j < |head| ensures !OccursAt(s, op, j) {
      assert s[j] == head[j] != '=';
      if j + 1 < |head| {
        assert s[j + 1] == head[j + 1] != '=';
      } else {
        assert s[j + 1] == op[0];
      }
      assert s[j..j + 2] == [s[j], s[j + 1]];
    }
  }

  /** A `>=` line whose head and version have no `=` contains no `==`. */
  lemma NoDoubleEquals(head: string, v: string)
    requires '=' !in head && '=' !in v
    ensures FindFirst(head + ">=" + v, "==").None?
  {
    var s := head + ">=" + v;
    forall j: nat ensures !OccursAt(s, "==", j) {
      if j + 2 <= |s| {
        assert s[j..j + 2] == [s[j], s[j + 1]];
        if j < |head| {
          assert s[j] == head[j];
        } else if j == |head| {
          assert s[j] == '>';
        } else {
          assert s[j + 1] == v[j + 1 - |head| - 2];
        }
      }
    }
  }

  /**
   * A line `<head><op><v>` with `head` lowering to `python`, `op` one of `==` and `>=`
   * and no `=` in `v` pins Python and yields exactly `v`: `python==3.11` gives `3.11`,
   * `Python>=3.9` gives `3.9`, and a bare `python==` gives the empty version.
   */
  lemma PinnedVersionOfLine(head: string, op: string, v: string)
    requires Lower(head) == "python"
    requires op == "==" || op == ">="
    requires '=' !in v
    ensures IsPythonPin(head + op + v)
    ensures PinnedVersion(head + op + v) == v
  {
    HeadWithoutEquals(head);
    PinLineIsPin(head, op, v);
    PinLineVersion(head, op, v);
  }

  /** A head lowering to `python` has no `=` in it. */
  lemma HeadWithoutEquals(head: string)
    requires Lower(head) == "python"
    ensures '=' !in head
  {
    forall i | 0 <= i < |head| ensures head[i] != '=' {
      assert Lower(head)[i] == LowerChar(head[i]);
    }
  }

  /** `<head><op><v>` lowers to a text starting with `python<op>`. */
  lemma PinLineIsPin(head: string, op: string, v: string)
    requires Lower(head) == "python"
    requires op == "==" || op == ">="
    ensures IsPythonPin(head + op + v)
  {
    var s := head + op + v;
    LowerConcat(head, op + v);
    LowerConcat(op, v);
    assert Lower(op) == op;
    assert s == head + (op + v);
    assert Lower(s) == "python" + op + Lower(v);
  }

  /** With no `=` in `head` or `v`, the text after `op` in `<head><op><v>` is exactly `v`. */
  lemma PinLineVersion(head: string, op: string, v: string)
    requires '=' !in head && '=' !in v
    requires op == "==" || op == ">="
    ensures PinnedVersion(head + op + v) == v
  {
    OperatorAfterHead(head, op, v);
    SplitAt(head, op, v);
    NoOperatorWithoutEquals(v, op);
    SplitNone(v, op);
    if op == ">=" {
      NoDoubleEquals(head, v);
    }
  }

  /**
   * For a line `<head>==<v>` whose head has no `=` and whose `v` has no `==`, the version
   * is exactly `v`, even when `v` starts with `=`: `python===3.11` gives `=3.11`, because
   * `split` finds the leftmost `==` and the remaining `=3.11` holds no other.
   */
  lemma PinnedVersionAfterHead(head: string, v: string)
    requires '=' !in head
    requires !Contains(v, "==")
    ensures Contains(head + "==" + v, "==")
    ensures PinnedVersion(head + "==" + v) == v
  {
    OperatorAfterHead(head, "==", v);
    SplitAt(head, "==", v);
    SplitNone(v, "==");
  }

  /**
   * What the create command receives for such a line, when it is the first pinning line
   * and its version does not end in whitespace: `python=<v>`, or plain `python` when the
   * version is empty.
   */
  lemma PythonSpecOfLine(head: string, op: string, v: string, rest: seq<string>)
    requires Lower(head) == "python"
    requires op == "==" || op == ">="
    requires '=' !in v && (v == [] || !IsSpace(v[|v| - 1]))
    ensures PythonSpec(FirstPythonPin([head + op + v] + rest)) == if v == "" then "python" else "python=" + v
  {
    PinnedVersionOfLine(head, op, v);
    var s := head + op + v;
    assert Lower(head)[0] == LowerChar(head[0]) == 'p';
    assert s[0] == head[0];
    assert s[|s| - 1] == if v == [] then '=' else v[|v| - 1];
    StripTrimmed(s);
    var lines := [s] + rest;
    assert lines[0] == s;
    assert FirstPythonPin(lines) == Some(v);
  }

  // ---------------------------------------------------------------------------
  // The commands
  // ---------------------------------------------------------------------------

  /** `[conda_exe, "env", "create", "-f", yml_path, "-n", env_name]` (line 60). */
  function YmlCreateCommand(conda: string, envName: string): seq<string>
  {
    [conda, "env", "create", "-f", EnvironmentYmlPath, "-n", envName]
  }

  /** `[conda_exe, "create", "-y", "-n", env_name, python_spec]` (line 84). */
  function RequirementsCreateCommand(conda: string, envName: string, pythonSpec: string): seq<string>
  {
    [conda, "create", "-y", "-n", envName, pythonSpec]
  }

  /** `[conda_exe, "run", "-n", env_name, "pip", "install", "-r", req_path]` (line 85). */
  function RequirementsInstallCommand(conda: string, envName: string): seq<string>
  {
    [conda, "run", "-n", envName, "pip", "install", "-r", RequirementsTxtPath]
  }

  /** The options of these commands that take a value: the name, the file and the requirements. */
  predicate TakesValue(arg: string)
  {
    arg == "-n" || arg == "-f" || arg == "-r"
  }

  /** The value given to the first `flag` in `args`; an option's value is never read as an option. */
  function ArgAfter(args: seq<string>, flag: string): Option<string>
  {
    if |args| < 2 then None
    else if args[0] == flag then Some(args[1])
    else if TakesValue(args[0]) then ArgAfter(args[2..], flag)
    else ArgAfter(args[1..], flag)
  }

  /** How the manager reads an option: the value after the first `flag` past the program path. */
  function OptionValue(argv: seq<string>, flag: string): Option<string>
  {
    if |argv| == 0 then None else ArgAfter(argv[1..], flag)
  }

  /**
   * Read back as the manager reads them, the commands carry the chosen name, the manifest
   * path and the Python spec; both requirements commands name the same environment.
   */
  lemma CommandsCarryChoices(conda: string, envName: string, pythonSpec: string)
    ensures OptionValue(YmlCreateCommand(conda, envName), "-f") == Some(EnvironmentYmlPath)
    ensures OptionValue(YmlCreateCommand(conda, envName), "-n") == Some(envName)
    ensures OptionValue(RequirementsCreateCommand(conda, envName, pythonSpec), "-n") == Some(envName)
    ensures RequirementsCreateCommand(conda, envName, pythonSpec)[5] == pythonSpec
    ensures OptionValue(RequirementsInstallCommand(conda, envName), "-n") == Some(envName)
    ensures OptionValue(RequirementsInstallCommand(conda, envName), "-r") == Some(RequirementsTxtPath)
  {
    YmlCommandOptions(conda, envName);
    CreateCommandOptions(conda, envName, pythonSpec);
    InstallCommandOptions(conda, envName);
  }

  /** `env create -f <path> -n <name>`: the `-f` value is the path, the `-n` value the name. */
  lemma YmlCommandOptions(conda: string, envName: string)
    ensures OptionValue(YmlCreateCommand(conda, envName), "-f") == Some(EnvironmentYmlPath)
    ensures OptionValue(YmlCreateCommand(conda, envName), "-n") == Some(envName)
  {
    var yml := ["env", "create", "-f", EnvironmentYmlPath, "-n", envName];
    assert YmlCreateCommand(conda, envName)[1..] == yml;
    assert yml[2..] == ["-f", EnvironmentYmlPath, "-n", envName];
    assert yml[4..] == ["-n", envName];
    assert ArgAfter(yml, "-f") == ArgAfter(yml[1..], "-f") == ArgAfter(yml[2..], "-f");
    assert ArgAfter(yml, "-n") == ArgAfter(yml[1..], "-n") == ArgAfter(yml[2..], "-n") == ArgAfter(yml[4..], "-n");
  }

  /** `create -y -n <name> <spec>`: the `-n` value is the name, and the spec comes last. */
  lemma CreateCommandOptions(conda: string, envName: string, pythonSpec: string)
    ensures OptionValue(RequirementsCreateCommand(conda, envName, pythonSpec), "-n") == Some(envName)
  {
    var create := ["create", "-y", "-n", envName, pythonSpec];
    assert RequirementsCreateCommand(conda, envName, pythonSpec)[1..] == create;
    assert create[2..] == ["-n", envName, pythonSpec];
    assert ArgAfter(create, "-n") == ArgAfter(create[1..], "-n") == ArgAfter(create[2..], "-n");
  }

  /** `run -n <name> pip install -r <path>`: the `-n` value is the name, the `-r` value the path. */
  lemma InstallCommandOptions(conda: string, envName: string)
    ensures OptionValue(RequirementsInstallCommand(conda, envName), "-n") == Some(envName)
    ensures OptionValue(RequirementsInstallCommand(conda, envName), "-r") == Some(RequirementsTxtPath)
  {
    var install := ["run", "-n", envName, "pip", "install", "-r", RequirementsTxtPath];
    assert RequirementsInstallCommand(conda, envName)[1..] == install;
    assert install[1..] == ["-n", envName, "pip", "install", "-r", RequirementsTxtPath];
    assert install[3..] == ["pip", "install", "-r", RequirementsTxtPath];
    assert install[5..] == ["-r", RequirementsTxtPath];
    assert ArgAfter(install, "-n") == ArgAfter(install[1..], "-n");
    assert ArgAfter(install, "-r") == ArgAfter(install[1..], "-r") == ArgAfter(install[3..], "-r")
        == ArgAfter(install[4..], "-r") == ArgAfter(install[5..], "-r");
  }

  /**
   * `create_env_from_yml` (lines 44-61): one `env create` command that reads the exported
   * file and names the environment as `YmlEnvName` chooses (the answer, stripped, or else
   * the file's `name`, or else `imported_env`).
   */
  function CreateEnvFromYml(conda: string, userInput: string, nameField: Option<string>): (cmd: seq<string>)
    ensures |cmd| == 7 && cmd[0] == conda && cmd[1..3] == ["env", "create"]
    ensures OptionValue(cmd, "-f") == Some(EnvironmentYmlPath)
    ensures OptionValue(cmd, "-n") == Some(YmlEnvName(userInput, nameField))
  {
    YmlCommandOptions(conda, YmlEnvName(userInput, nameField));
    YmlCreateCommand(conda, YmlEnvName(userInput, nameField))
  }

  /**
   * `create_env_from_requirements` (lines 64-86): a bare environment with the Python
   * spec read from the file, then pip installing the file inside that same environment.
   * `check_call` raises when a command fails, so the install command is issued only
   * after the create command succeeded; `createSucceeded` is that outcome.
   */
  method CreateEnvFromRequirements(conda: string, userInput: string, requirementsText: string,
                                   createSucceeded: bool)
    returns (commands: seq<seq<string>>)
    ensures commands == [RequirementsCreateCommand(conda, RequirementsEnvName(userInput),
                                                   PythonSpec(FirstPythonPin(Lines(requirementsText))))]
                        + (if createSucceeded then [RequirementsInstallCommand(conda, RequirementsEnvName(userInput))] else [])
    ensures |commands| == if createSucceeded then 2 else 1
    ensures commands[0] == RequirementsCreateCommand(conda, RequirementsEnvName(userInput),
                                                     PythonSpec(FirstPythonPin(Lines(requirementsText))))
    ensures OptionValue(commands[0], "-n") == Some(RequirementsEnvName(userInput))
    ensures createSucceeded ==>
              && commands[1] == RequirementsInstallCommand(conda, RequirementsEnvName(userInput))
              && OptionValue(commands[1], "-n") == Some(RequirementsEnvName(userInput))
  {
    var envName := RequirementsEnvName(userInput);
    var pythonVersion := ScanPythonVersion(Lines(requirementsText));
    var pythonSpec := PythonSpec(pythonVersion);
    commands := [RequirementsCreateCommand(conda, envName, pythonSpec)];
    if createSucceeded {
      commands := commands + [RequirementsInstallCommand(conda, envName)];
    }
    CommandsCarryChoices(conda, envName, pythonSpec);
  }

  /**
   * `main` (lines 99-112): the commands issued, in order. `environment.yml` wins even
   * when `requirements.txt` is present too; with neither file nothing is issued. A
   * failing command ends the script, so `createSucceeded` decides whether the
   * requirements path goes on to install.
   */
  method RunImport(conda: string, ymlExists: bool, requirementsExists: bool, userInput: string,
                   ymlNameField: Option<string>, requirementsText: string, createSucceeded: bool)
    returns (commands: seq<seq<string>>)
    ensures ymlExists ==> commands == [CreateEnvFromYml(conda, userInput, ymlNameField)]
    ensures !ymlExists && requirementsExists ==>
              var envName := RequirementsEnvName(userInput);
              commands == [RequirementsCreateCommand(conda, envName, PythonSpec(FirstPythonPin(Lines(requirementsText))))]
                          + (if createSucceeded then [RequirementsInstallCommand(conda, envName)] else [])
    ensures !ymlExists && !requirementsExists ==> commands == []
  {
    if ymlExists {
      commands := [CreateEnvFromYml(conda, userInput, ymlNameField)];
    } else if requirementsExists {
      commands := CreateEnvFromRequirements(conda, userInput, requirementsText, createSucceeded);
    } else {
      commands := [];
    }
  }
}
