/**
 * What the import script makes of the files the export script writes: the name of an
 * exported `environment.yml` survives a blank answer, and an exported `requirements.txt`
 * is read back line for line, so the Python pin the export wrote is the one the import
 * hands to the environment manager.
 */
module ExportImport {
  import opened Wrappers
  import opened Text
  import opened ExportEnv
  import opened ImportEnv

  /** An exported `environment.yml`, imported with a blank answer, recreates `exported_env`. */
  lemma ExportedNameKept(condaOnly: seq<string>, pipPackages: seq<string>, userInput: string)
    requires |condaOnly| > 0
    requires IsBlank(userInput)
    ensures ChooseManifest(condaOnly, pipPackages).EnvironmentYml?
    ensures var m := ChooseManifest(condaOnly, pipPackages);
            YmlEnvName(userInput, Some(m.name)) == ExportedEnvName
  {
    YmlEnvNameChoice(userInput, Some(ExportedEnvName));
  }

  /** A blank line is never a Python pin, so a trailing empty piece changes nothing. */
  lemma {:induction false} FirstPythonPinBlankTail(lines: seq<string>)
    ensures FirstPythonPin(lines + [""]) == FirstPythonPin(lines)
    decreases |lines|
  {
    if |lines| == 0 {
      assert !IsPythonPin(Strip(""));
      assert [""][1..] == [];
    } else {
      assert (lines + [""])[0] == lines[0];
      assert (lines + [""])[1..] == lines[1..] + [""];
      FirstPythonPinBlankTail(lines[1..]);
    }
  }

  /**
   * An exported `requirements.txt` reads back as exactly the exported entries (plus the
   * empty piece after the final newline), so the import finds the same Python version it
   * would find in the entries themselves.
   */
  lemma RequirementsReadBack(pins: seq<string>)
    requires |pins| > 0
    requires forall k :: 0 <= k < |pins| ==> '\n' !in pins[k] && '\r' !in pins[k]
    ensures Lines(RequirementsText(pins)) == pins + [""]
    ensures FirstPythonPin(Lines(RequirementsText(pins))) == FirstPythonPin(pins)
  {
    var text := RequirementsText(pins);
    assert '\r' !in text by {
      JoinWithout(pins, "\n", '\r');
    }
    UniversalNewlinesPlain(text);
    RequirementsRoundTrip(pins);
    FirstPythonPinBlankTail(pins);
  }

  /** Joining parts that lack `c` with a separator that lacks `c` yields text without `c`. */
  lemma {:induction false} JoinWithout(parts: seq<string>, sep: string, c: char)
    requires c !in sep
    requires forall k :: 0 <= k < |parts| ==> c !in parts[k]
    ensures c !in Join(parts, sep)
    decreases |parts|
  {
    if |parts| > 1 {
      JoinWithout(parts[1..], sep, c);
    }
  }

  /**
   * The round trip of a Python pin through a requirements-only export: the environment's
   * explicit `python=<v>` becomes the entry `python==<v>`, and importing that file creates
   * the environment with `python=<v>` again, whatever entries follow it.
   */
  lemma PythonPinRoundTrip(v: string, rest: seq<string>)
    requires v != [] && '=' !in v && !IsSpace(v[|v| - 1])
    requires '\n' !in v && '\r' !in v
    requires forall k :: 0 <= k < |rest| ==> '\n' !in rest[k] && '\r' !in rest[k]
    ensures PipSpec("python=" + v) == "python==" + v
    ensures PythonSpec(FirstPythonPin(Lines(RequirementsText([PipSpec("python=" + v)] + rest))))
            == "python=" + v
  {
    PipSpecOfParts("python", v);
    var line := "python" + "==" + v;
    var pins := [line] + rest;
    assert "python" + "=" + v == "python=" + v;
    assert line == "python==" + v;
    assert [PipSpec("python=" + v)] + rest == pins;
    LineWithoutBreaks("python" + "==", v);
    forall k | 0 <= k < |pins| ensures '\n' !in pins[k] && '\r' !in pins[k] {
      if k > 0 {
        assert pins[k] == rest[k - 1];
      }
    }
    RequirementsReadBack(pins);
    LowerPython();
    PythonSpecOfLine("python", "==", v, rest);
  }

  /** The head `python` is already in lower case. */
  lemma LowerPython()
    ensures Lower("python") == "python"
  {
  }

  /** Appending text without line breaks to a head without them keeps the line whole. */
  lemma LineWithoutBreaks(head: string, v: string)
    requires '\n' !in v && '\r' !in v
    requires '\n' !in head && '\r' !in head
    ensures '\n' !in head + v && '\r' !in head + v
  {
  }
}
