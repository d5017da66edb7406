# Conda environment export and import, modelled in Dafny

This is a model of the two scripts that move a conda environment between machines.

- `export_conda_env.py` reads the explicitly installed conda specs of the current environment. It splits them into packages that pip can install (the name before the first `=` exists on PyPI) and packages only conda can provide. It adds the root packages of the pip dependency tree and writes one manifest:
  - `environment.yml`, named `exported_env`, when any conda-only package exists. It lists the conda specs, followed by a single `pip:` block when there are pip packages.
  - Otherwise `requirements.txt`, with one entry per line.
- `import_conda_env.py` picks the manifest, with `environment.yml` winning. It chooses the environment name, reads the Python version from a requirements file, and issues the `conda` commands that recreate the environment.

The model keeps the scripts' decision and string logic and turns every external effect into a parameter:

- the PyPI lookup is a predicate `onIndex`;
- the conda history and the `pipdeptree` output are sequences of datatypes;
- the answers to `input()` are strings;
- the existence of each manifest is a boolean;
- the `name` field of a loaded `environment.yml` is an optional string;
- `requirements.txt` is its text.

The model returns the written manifest and the argument vectors instead of writing or running them.

Files:

- `wrappers.dfy`: `Option`.
- `text.dfy`: the Python `str` operations the scripts use. These are `partition`, `replace`, `in`, `split`, `split(..)[-1]`, `startswith`, `join`, `strip` with Python's whitespace set, `lower`, and the universal-newline line splitting of a file opened in text mode. `Text.FindFirst` and `Text.IndexOfChar` are the search behind `in`, `split`, `partition` and `replace`.
- `export_env.dfy`: module `ExportEnv`.
  - The classification loop is a method proved against recursive specification functions.
  - The root computation and the manifest choice are functions.
  - The whole export is a method that builds the dependency list by extending and appending, as the script does.
  - It also holds the `PACKAGE_MAP` lookup.
- `import_env.dfy`: module `ImportEnv`.
  - Name selection and the Python spec are functions.
  - The scan for the Python pin is a method with the script's early `break`.
  - The argv builders, how `conda` reads an option back from them, and `main`'s dispatch are modelled too.
- `export_import.dfy`: module `ExportImport`, with lemmas about what the importer makes of files the exporter writes.

## Model

| member | source | states |
|---|---|---|
| ExportEnv.PackageName | export_conda_env.py:136 | The name looked up on PyPI is a prefix of the spec without `=`. It is followed by `=` unless it is the whole spec (`dep.partition("=")[0]`). |
| ExportEnv.PipSpecShape | export_conda_env.py:136-138 | A spec without `=` is unchanged. Otherwise the spec is `name=rest` and its pip form is `name==rest`, so only the first `=` is doubled. |
| ExportEnv.PipSpecOfParts | export_conda_env.py:136-138 | For `name` without `=`, `name=rest` has PyPI name `name` and pip form `name==rest` (`numpy=1.26.0` becomes `numpy==1.26.0`, `a=1=b` becomes `a==1=b`). |
| ExportEnv.PipSpecSameName | export_conda_env.py:136-138 | Rewriting to the pip form keeps the name that was looked up. |
| ExportEnv.PipSpecRoundTrip | export_conda_env.py:138 | Halving the first `==` again gives back the original spec, so the rewrite loses nothing. |
| ExportEnv.Classify | export_conda_env.py:129-140 | The loop over the history entries yields exactly the pip list and the conda-only list that the specification functions give. Non-string entries are skipped. |
| ExportEnv.ClassifyPartition | export_conda_env.py:133-140 | Every string entry lands in exactly one of the two lists. As multisets, the conda-only list plus the un-rewritten pip list equal the string entries. |
| ExportEnv.ClassifyNames | export_conda_env.py:137-140 | Conda-only entries have names not on PyPI. Pip entries, before and after the rewrite, have names on PyPI. |
| ExportEnv.ClassifyKeepsOrder | export_conda_env.py:133-140 | Each list keeps the history's relative order: each is a subsequence of the string entries. |
| ExportEnv.SpecsMembers | export_conda_env.py:133-134 | The string entries collected are exactly the `str` items of the history. |
| ExportEnv.RootsCharacterisation | export_conda_env.py:157-160 | A tree package is a root iff no package of the tree lists its key as a dependency. Roots keep tree order. |
| ExportEnv.NoEdgesAllRoots | export_conda_env.py:157-160 | A tree without dependency edges is all roots, in order. |
| ExportEnv.SelfDependentNotRoot | export_conda_env.py:157-160 | A package listing its own key is never a root. |
| ExportEnv.FullyReferencedNoRoots | export_conda_env.py:157-160 | When every package is someone's dependency, there are no roots. |
| ExportEnv.RootPins | export_conda_env.py:162-165 | There is one `key==installed_version` entry per root. |
| ExportEnv.PinNamesKey | export_conda_env.py:163 | A root's entry reads back as that root's key (its name before `=`) followed by `==` and its installed version. |
| ExportEnv.RequirementsRoundTrip | export_conda_env.py:189 | For a non-empty list of entries without newlines, splitting the written text on `\n` gives the entries followed by one empty piece. |
| ExportEnv.ChooseManifest | export_conda_env.py:168-190 | `environment.yml` is written iff conda-only entries exist. It is named `exported_env` and holds the conda specs in order, then one `pip:` block iff the pip list is non-empty. Otherwise the requirements text is the joined pip list with a final newline. |
| ExportEnv.ExportEnvironment | export_conda_env.py:129-190 | The manifest is `ChooseManifest` applied to the conda-only list and to the pip list with the root entries appended after it. It is `environment.yml` iff some history spec's name is not on PyPI. |
| ExportEnv.ManagerOnlyExists | export_conda_env.py:168 | The conda-only list is non-empty iff some string entry's name is not on PyPI. |
| ExportEnv.PackageForSpec | export_conda_env.py:8-32 | Every mapped module name gives its mapped package, which differs from the module name. Any other name gives itself (`PACKAGE_MAP.get(m, m)` at line 91). |
| ImportEnv.YmlEnvNameChoice | import_conda_env.py:49-57 | A blank answer keeps the file's `name`, or `imported_env` when the field is absent. Any other answer wins, stripped, and is non-empty. |
| ImportEnv.CreateEnvFromYml | import_conda_env.py:44-61 | The yml branch issues `conda env create` with `-f environment.yml` and, as `-n`, the name `YmlEnvName` chooses: the stripped answer, or else the file's `name`, or else `imported_env` (see `ImportEnv.YmlEnvNameChoice`; `ImportEnv.CommandsCarryChoices` states the same for the bare command). |
| ImportEnv.RequirementsEnvNameChoice | import_conda_env.py:66-68 | A blank answer gives `imported_env`, any other the stripped answer. The name is never empty. |
| ImportEnv.PinnedVersionTail | import_conda_env.py:76 | The version is the piece after the last separator `split` finds: `==` when the line has one, otherwise `>=`. That separator scans leftmost and non-overlapping, so for `python===3.11` the piece is `=3.11`. The piece is a tail of the line, is preceded by that separator when the separator occurs, and never contains it. This fixes the piece only up to runs of `=`: for `python==a===b` the ensures admit both `b` and the actual `=b`. `ImportEnv.PinnedVersionAfterHead` fixes the piece for heads without `=` and versions without `==`. |
| ImportEnv.PinnedVersionAfterHead | import_conda_env.py:76 | For `<head>==<v>` with no `=` in the head and no `==` in `v`, the version is exactly `v`. So `python===3.11` (what the exporter writes for a `python==3.11` history spec) gives `=3.11`, and `python==3.11=h1` gives `3.11=h1`. |
| ImportEnv.PinnedVersionOfLine | import_conda_env.py:75-76 | A line `python==v` or `Python>=v` (any case of `python`) with no `=` in `v` counts as a Python pin, and its version is exactly `v`. |
| ImportEnv.ScanPythonVersion | import_conda_env.py:71-77 | The version comes from the first stripped line that pins Python, and the scan stops there. There is none iff no line pins Python. |
| ImportEnv.FirstPythonPinNone | import_conda_env.py:71-77 | No version is found exactly when no stripped line pins Python. |
| ImportEnv.FirstPythonPinFirst | import_conda_env.py:73-77 | A version found is read from the first stripped line that pins Python, since the loop breaks there. |
| ImportEnv.PythonSpecOfLine | import_conda_env.py:74-79 | When the first line is such a pin, the create command receives `python=v`, or bare `python` for an empty version. |
| ImportEnv.CommandsCarryChoices | import_conda_env.py:60-85 | Read as `conda` reads options, the yml command carries `-f environment.yml` and the chosen `-n`. Both requirements commands carry the same `-n`, the create command carries the Python spec, and the install command carries `-r requirements.txt`. |
| ImportEnv.CreateEnvFromRequirements | import_conda_env.py:64-86 | It first issues `create -y -n <name> <spec>`, with the name and spec chosen above. Only if that command succeeded does it issue `run -n <name> pip install -r requirements.txt` under the same name (`check_call` raises on failure). |
| ImportEnv.RunImport | import_conda_env.py:99-112 | `environment.yml` is used whenever it exists, even beside `requirements.txt`. Otherwise the requirements path issues the create command with the Python spec read from the file, then the pip install command under the same name if the create command succeeded. With neither file nothing is issued. |
| ExportImport.ExportedNameKept | import_conda_env.py:49-57 | An exported `environment.yml` imported with a blank answer recreates `exported_env`. |
| ExportImport.FirstPythonPinBlankTail | import_conda_env.py:72-77 | The empty piece after a final newline never changes the version found. |
| ExportImport.RequirementsReadBack | export_conda_env.py:189 | The importer reads an exported `requirements.txt` as exactly its entries plus one empty piece, so it finds the same Python version as in the entries. |
| ExportImport.PythonPinRoundTrip | export_conda_env.py:136-138 | An explicit `python=v` exported as `python==v` and imported again creates the environment with `python=v`, whatever entries follow. |
| Text.StripBlank | import_conda_env.py:51-52 | `strip()` yields the empty string exactly when every character is whitespace. |
| Text.FindFirst | import_conda_env.py:76 | The substring search behind `in` and `split` returns the leftmost occurrence, and none when the separator does not occur. |
| Text.FindFirstCharIsIndex | export_conda_env.py:136 | For a one-character separator, the substring search behind `in` and `split` agrees with the first-position search used for `partition("=")`. |
| Text.LastPieceSuffix | import_conda_env.py:76 | `split(sep)[-1]` is a tail of the text without `sep`, preceded by `sep` whenever `sep` occurs. |
| Text.SplitJoinTerminated | export_conda_env.py:189 | Joining parts without the separator, adding a final separator and splitting again gives the parts and one empty piece. |
| Text.UniversalNewlinesPlain | import_conda_env.py:72-73 | Text without carriage returns is read back unchanged by a file opened in text mode. |

## Left out

- `get_conda_executable` (export_conda_env.py:34-71, import_conda_env.py:24-41) is a PATH and filesystem probe. The executable path is a parameter `conda`.
- `check_pypi_package` (export_conda_env.py:74-80) is an HTTP request with a 5-second timeout, and any failure counts as "not on PyPI". It is the parameter `onIndex`, a fixed predicate. This assumes every lookup of the same name gets the same answer. The script makes one request per entry, so a network failure on one request can send two entries with the same name to different lists. `ExportEnv.ClassifyNames` and `ExportEnv.ManagerOnlyExists` rule that out.
- `ensure_import` (export_conda_env.py:82-112) has dynamic imports, a prompt, a `pip install` subprocess and `sys.exit`. Only its `PACKAGE_MAP` lookup is modelled, as `PackageFor`.
- Running `conda env export`, `pipdeptree`, `conda env create`, `conda create` and `conda run` is left out, as is parsing their JSON output.
  - The history is given as a sequence of `DepEntry`, where a non-string JSON item is `NonString`.
  - The dependency tree is given as a sequence of `TreeNode`.
  - The commands are returned as argument vectors.
- The YAML side is left out. `yaml.dump` formatting is not modelled; `environment.yml` is the `Manifest` value. `yaml.safe_load` is reduced to the `name` field as an `Option<string>`. A `name` that is not a string, and a missing or malformed file, are not modelled.
- Writing the manifest file and its UTF-8 encoding, and any decoding errors when reading it back, are not modelled.
- All `print` output is left out.
- `show_conda_info` (import_conda_env.py:89-96) is never called. It runs `conda info --json`, parses the output with `json.loads` (`json` is never imported in that script) and prints the environment folders. It is not part of this model.
- The `conda` option reader (`OptionValue`) is a simplified reading of the argument vector: options `-n`, `-f` and `-r` take a value, and every other word is a flag or a positional argument. It is not `conda`'s own parser.
- Each issued command is assumed to run. A command that fails makes `check_call` raise, which ends the script, so no later command is issued. The model covers this only for the requirements path's install command, through the parameter `createSucceeded`. The exit status of the yml path's single command, and of the install command, is not modelled.
- `Text.Lower` lowers ASCII letters only. The modelled code uses `lower()` only to test for the prefixes `python==` and `python>=`, and no other character lowers to a character of those prefixes, so the test gives the same answer. The other use, lowering the answer to `ensure_import`'s prompt (export_conda_env.py:95), belongs to that prompt, which is left out.
- `Text.Lines` splits on `\n` after universal-newline translation, as `for line in f` does. Python also keeps a line's terminator, but every caller strips it. A text ending in a newline yields one extra empty piece, which strips to `""` and never pins Python (`ExportImport.FirstPythonPinBlankTail`).
- A `python>=3.9` lower bound becomes the conda spec `python=3.9` in the script, and in the model too (`ImportEnv.PythonSpec`). The model keeps this behaviour and does not judge it.
- `ExportImport.PythonPinRoundTrip` covers versions without `=` whose last character is not whitespace. A version such as `3.11=h1` (a conda build string) is doubled only at its first `=`, and its read-back is covered by `ImportEnv.PinnedVersionAfterHead`.
