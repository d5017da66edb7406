/**
 * The decisions of the export script (`export_conda_env.py`): which explicitly installed
 * environment-manager packages can be installed from the public package index, which pip
 * packages are roots of the dependency tree, and which of the two manifest files is
 * written with what content.
 *
 * The index lookup is a parameter `onIndex`; the manager's JSON listing and the
 * dependency-tree tool's JSON output arrive already parsed, as `DepEntry` and `TreeNode`
 * values; the manifest is returned as a `Manifest` value instead of being written.
 */
module ExportEnv {
  import opened Wrappers
  import opened Text

  /** One entry of the manager's `dependencies` list: a spec string, or any other JSON value. */
  datatype DepEntry = Spec(text: string) | NonString

  /** One node of the dependency tree: its key, installed version and the keys it depends on. */
  datatype TreeNode = TreeNode(key: string, installedVersion: string, dependencies: seq<string>)

  /** An item of the structured manifest's `dependencies`: a manager spec, or the nested pip list. */
  datatype YmlEntry = CondaEntry(spec: string) | PipBlock(pip: seq<string>)

  /** The one file an export writes: `environment.yml` or `requirements.txt`. */
  datatype Manifest =
    | EnvironmentYml(name: string, dependencies: seq<YmlEntry>)
    | RequirementsTxt(text: string)

  /** The environment name written into every structured manifest. */
  const ExportedEnvName := "exported_env"

  /** `a` is `b` with some elements left out, the rest kept in order. */
  ghost predicate IsSubsequence<T>(a: seq<T>, b: seq<T>)
    decreases |b|
  {
    || |a| == 0
    || (&& |b| > 0
        && (|| (a[|a| - 1] == b[|b| - 1] && IsSubsequence(a[..|a| - 1], b[..|b| - 1]))
            || IsSubsequence(a, b[..|b| - 1])))
  }

  // ---------------------------------------------------------------------------
  // The name looked up in the index, and the rewrite to pip's `==`
  // ---------------------------------------------------------------------------

  /** `dep.partition("=")[0]`: the text before the first `=`, or all of `dep` without one. */
  function PackageName(dep: string): (name: string)
    ensures name <= dep && '=' !in name
    ensures |name| < |dep| ==> dep[|name|] == '='
  {
    match IndexOfChar(dep, '=')
    case None => dep
    case Some(i) => dep[..i]
  }

  /** `dep.replace("=", "==", 1)`: the manager's `name=version` written as pip's `name==version`. */
  function PipSpec(dep: string): string
  {
    match IndexOfChar(dep, '=')
    case None => dep
    case Some(i) => dep[..i] + "==" + dep[i + 1..]
  }

  /** The rewrite read backwards: drop the first `=`. */
  function UndoPipSpec(p: string): string
  {
    match IndexOfChar(p, '=')
    case None => p
    case Some(i) => p[..i] + p[i + 1..]
  }

  /**
   * A spec without `=` is left as it is; one with an `=` reads `name=rest` where `name`
   * has no `=`, and becomes `name==rest`: `numpy=1.26.0` becomes `numpy==1.26.0` and
   * `a=1=b` becomes `a==1=b`.
   */
  lemma PipSpecShape(dep: string)
    ensures '=' !in dep ==> PipSpec(dep) == dep
    ensures '=' in dep ==>
              var name := PackageName(dep);
              |name| < |dep| && dep == name + "=" + dep[|name| + 1..]
              && PipSpec(dep) == name + "==" + dep[|name| + 1..]
  {
    if '=' in dep {
      var i := IndexOfChar(dep, '=').value;
      assert dep == dep[..i] + "=" + dep[i + 1..];
    }
  }

  /** Read the other way round: the name before the first `=` and the rest around it. */
  lemma PipSpecOfParts(name: string, rest: string)
    requires '=' !in name
    ensures PackageName(name + "=" + rest) == name
    ensures PipSpec(name + "=" + rest) == name + "==" + rest
  {
    IndexOfCharAfter(name, '=', rest);
    assert (name + "=" + rest)[..|name|] == name;
    assert (name + "=" + rest)[|name| + 1..] == rest;
  }

  /** The rewritten spec names the same package as the original. */
  lemma PipSpecSameName(dep: string)
    ensures PackageName(PipSpec(dep)) == PackageName(dep)
  {
    if '=' in dep {
      var i := IndexOfChar(dep, '=').value;
      var p := PipSpec(dep);
      IndexOfCharAfter(dep[..i], '=', "=" + dep[i + 1..]);
      assert p == dep[..i] + "=" + ("=" + dep[i + 1..]);
    }
  }

  /** The rewrite loses nothing: undoing it gives back the manager's spec. */
  lemma PipSpecRoundTrip(dep: string)
    ensures UndoPipSpec(PipSpec(dep)) == dep
  {
    PipSpecShape(dep);
    if '=' in dep {
      var name := PackageName(dep);
      UndoOfParts(name, dep[|name| + 1..]);
    }
  }

  /** Undoing `name==rest` for a `name` without `=` drops one of the two `=`. */
  lemma UndoOfParts(name: string, rest: string)
    requires '=' !in name
    ensures UndoPipSpec(name + "==" + rest) == name + "=" + rest
  {
    var p := name + "==" + rest;
    assert p == name + "=" + ("=" + rest);
    IndexOfCharAfter(name, '=', "=" + rest);
    assert p[..|name|] == name;
    assert p[|name| + 1..] == "=" + rest;
  }

  // ---------------------------------------------------------------------------
  // Classification of the explicit manager packages
  // ---------------------------------------------------------------------------

  /** The string entries, in order; other entries are skipped. */
  function Specs(deps: seq<DepEntry>): seq<string>
  {
    if |deps| == 0 then []
    else
      var last := deps[|deps| - 1];
      Specs(deps[..|deps| - 1]) + (if last.Spec? then [last.text] else [])
  }

  /** The entries whose name is on the index, rewritten with `==`, in order. */
  function PipPart(deps: seq<DepEntry>, onIndex: string -> bool): seq<string>
  {
    if |deps| == 0 then []
    else
      var last := deps[|deps| - 1];
      PipPart(deps[..|deps| - 1], onIndex)
      + (if last.Spec? && onIndex(PackageName(last.text)) then [PipSpec(last.text)] else [])
  }

  /** The entries whose name is not on the index, unchanged, in order. */
  function CondaPart(deps: seq<DepEntry>, onIndex: string -> bool): seq<string>
  {
    if |deps| == 0 then []
    else
      var last := deps[|deps| - 1];
      CondaPart(deps[..|deps| - 1], onIndex)
      + (if last.Spec? && !onIndex(PackageName(last.text)) then [last.text] else [])
  }

  /** `UndoPipSpec` applied to every element. */
  function UndoPipAll(ps: seq<string>): (r: seq<string>)
    ensures |r| == |ps|
  {
    if |ps| == 0 then [] else UndoPipAll(ps[..|ps| - 1]) + [UndoPipSpec(ps[|ps| - 1])]
  }

  /**
   * The loop over the manager's explicit packages (`export_conda_env.py`, lines 133-140):
   * a string entry goes to the pip list, rewritten, when its name is on the index, and to
   * the manager-only list, unchanged, otherwise; other entries are skipped.
   */
  method Classify(explicitDeps: seq<DepEntry>, onIndex: string -> bool)
    returns (pipPackages: seq<string>, condaOnly: seq<string>)
    ensures pipPackages == PipPart(explicitDeps, onIndex)
    ensures condaOnly == CondaPart(explicitDeps, onIndex)
  {
    pipPackages, condaOnly := [], [];
    for k := 0 to |explicitDeps|
      invariant pipPackages == PipPart(explicitDeps[..k], onIndex)
      invariant condaOnly == CondaPart(explicitDeps[..k], onIndex)
    {
      assert explicitDeps[..k + 1][..k] == explicitDeps[..k];
      match explicitDeps[k]
      case Spec(dep) =>
        var name := PackageName(dep);
        if onIndex(name) {
          pipPackages := pipPackages + [PipSpec(dep)];
        } else {
          condaOnly := condaOnly + [dep];
        }
      case NonString =>
    }
    assert explicitDeps[..|explicitDeps|] == explicitDeps;
  }

  /**
   * The two lists partition the string entries: with the pip rewrite undone they hold
   * every string entry exactly as often as the input does.
   */
  lemma {:induction false} ClassifyPartition(deps: seq<DepEntry>, onIndex: string -> bool)
    ensures multiset(CondaPart(deps, onIndex)) + multiset(UndoPipAll(PipPart(deps, onIndex)))
            == multiset(Specs(deps))
    decreases |deps|
  {
    if |deps| > 0 {
      var init, last := deps[..|deps| - 1], deps[|deps| - 1];
      ClassifyPartition(init, onIndex);
      var conda0, pip0, specs0 := CondaPart(init, onIndex), PipPart(init, onIndex), Specs(init);
      if last.Spec? {
        var s := last.text;
        assert Specs(deps) == specs0 + [s];
        if onIndex(PackageName(s)) {
          assert CondaPart(deps, onIndex) == conda0;
          assert PipPart(deps, onIndex) == pip0 + [PipSpec(s)];
          UndoPipAllSnoc(pip0, PipSpec(s));
          PipSpecRoundTrip(s);
        } else {
          assert CondaPart(deps, onIndex) == conda0 + [s];
          assert PipPart(deps, onIndex) == pip0;
        }
      } else {
        assert Specs(deps) == specs0;
        assert CondaPart(deps, onIndex) == conda0;
        assert PipPart(deps, onIndex) == pip0;
      }
    }
  }

  lemma {:induction false} ClassifyNames(deps: seq<DepEntry>, onIndex: string -> bool)
    ensures forall s :: s in CondaPart(deps, onIndex) ==> !onIndex(PackageName(s))
    ensures forall p :: p in PipPart(deps, onIndex) ==> onIndex(PackageName(p))
    ensures forall s :: s in UndoPipAll(PipPart(deps, onIndex)) ==> onIndex(PackageName(s))
    decreases |deps|
  {
    if |deps| > 0 {
      var init, last := deps[..|deps| - 1], deps[|deps| - 1];
      ClassifyNames(init, onIndex);
      var conda0, pip0 := CondaPart(init, onIndex), PipPart(init, onIndex);
      if last.Spec? {
        var s := last.text;
        if onIndex(PackageName(s)) {
          assert CondaPart(deps, onIndex) == conda0;
          assert PipPart(deps, onIndex) == pip0 + [PipSpec(s)];
          UndoPipAllSnoc(pip0, PipSpec(s));
          PipSpecRoundTrip(s);
          PipSpecSameName(s);
        } else {
          assert CondaPart(deps, onIndex) == conda0 + [s];
          assert PipPart(deps, onIndex) == pip0;
        }
      } else {
        assert CondaPart(deps, onIndex) == conda0;
        assert PipPart(deps, onIndex) == pip0;
      }
    }
  }

  lemma UndoPipAllSnoc(ps: seq<string>, p: string)
    ensures UndoPipAll(ps + [p]) == UndoPipAll(ps) + [UndoPipSpec(p)]
  {
    assert (ps + [p])[..|ps|] == ps;
  }

  /** Both lists keep the input's order: each is a subsequence of the string entries. */
  lemma {:induction false} ClassifyKeepsOrder(deps: seq<DepEntry>, onIndex: string -> bool)
    ensures IsSubsequence(CondaPart(deps, onIndex), Specs(deps))
    ensures IsSubsequence(UndoPipAll(PipPart(deps, onIndex)), Specs(deps))
    decreases |deps|
  {
    if |deps| > 0 {
      var init, last := deps[..|deps| - 1], deps[|deps| - 1];
      ClassifyKeepsOrder(init, onIndex);
      var conda0, pip0, specs0 := CondaPart(init, onIndex), PipPart(init, onIndex), Specs(init);
      var undone0 := UndoPipAll(pip0);
      if last.Spec? {
        var s := last.text;
        assert Specs(deps) == specs0 + [s];
        if onIndex(PackageName(s)) {
          assert CondaPart(deps, onIndex) == conda0;
          assert PipPart(deps, onIndex) == pip0 + [PipSpec(s)];
          UndoPipAllSnoc(pip0, PipSpec(s));
          PipSpecRoundTrip(s);
          SubsequenceExtend(conda0, specs0, s);
          SubsequenceSnoc(undone0, specs0, s);
        } else {
          assert CondaPart(deps, onIndex) == conda0 + [s];
          assert PipPart(deps, onIndex) == pip0;
          SubsequenceSnoc(conda0, specs0, s);
          SubsequenceExtend(undone0, specs0, s);
        }
      } else {
        assert Specs(deps) == specs0;
        assert CondaPart(deps, onIndex) == conda0;
        assert PipPart(deps, onIndex) == pip0;
      }
    }
  }

  /** Appending the same element to both sides keeps a subsequence one. */
  lemma SubsequenceSnoc<T>(a: seq<T>, b: seq<T>, x: T)
    requires IsSubsequence(a, b)
    ensures IsSubsequence(a + [x], b + [x])
  {
    assert (a + [x])[..|a|] == a;
    assert (b + [x])[..|b|] == b;
  }

  /** A subsequence stays one when the longer sequence grows at its end. */
  lemma SubsequenceExtend<T>(a: seq<T>, b: seq<T>, x: T)
    requires IsSubsequence(a, b)
    ensures IsSubsequence(a, b + [x])
  {
    assert (b + [x])[..|b|] == b;
  }

  /** A string entry is in `Specs` exactly when it is a `Spec` entry of the input. */
  lemma {:induction false} SpecsMembers(deps: seq<DepEntry>)
    ensures forall s :: s in Specs(deps) <==> Spec(s) in deps
    decreases |deps|
  {
    if |deps| > 0 {
      var init := deps[..|deps| - 1];
      SpecsMembers(init);
      assert deps == init + [deps[|deps| - 1]];
    }
  }

  // ---------------------------------------------------------------------------
  // Roots of the pip dependency tree
  // ---------------------------------------------------------------------------

  /** Every key that appears in some node's dependency list (`all_dependencies`). */
  function DependedUpon(tree: seq<TreeNode>): set<string>
  {
    set i, k | 0 <= i < |tree| && k in tree[i].dependencies :: k
  }

  /** The nodes of `nodes` whose key is not in `depended`, in order. */
  function RootsAmong(nodes: seq<TreeNode>, depended: set<string>): seq<TreeNode>
  {
    if |nodes| == 0 then []
    else
      var last := nodes[|nodes| - 1];
      RootsAmong(nodes[..|nodes| - 1], depended) + (if last.key in depended then [] else [last])
  }

  /** `root_nodes`: the nodes no node depends on. */
  function Roots(tree: seq<TreeNode>): seq<TreeNode>
  {
    RootsAmong(tree, DependedUpon(tree))
  }

  lemma {:induction false} RootsAmongFacts(nodes: seq<TreeNode>, depended: set<string>)
    ensures forall n :: n in RootsAmong(nodes, depended) <==> n in nodes && n.key !in depended
    ensures IsSubsequence(RootsAmong(nodes, depended), nodes)
    decreases |nodes|
  {
    if |nodes| > 0 {
      var init, last := nodes[..|nodes| - 1], nodes[|nodes| - 1];
      RootsAmongFacts(init, depended);
      assert nodes == init + [last];
      var r := RootsAmong(nodes, depended);
      if last.key !in depended {
        assert r[..|r| - 1] == RootsAmong(init, depended);
      } else {
        assert r == RootsAmong(init, depended);
        SubsequenceExtend(r, init, last);
      }
    }
  }

  /**
   * A node is a root exactly when no node of the tree lists its key as a dependency;
   * the roots keep the tree's order.
   */
  lemma RootsCharacterisation(tree: seq<TreeNode>)
    ensures forall n :: n in Roots(tree) <==>
                        n in tree && forall m :: m in tree ==> n.key !in m.dependencies
    ensures IsSubsequence(Roots(tree), tree)
  {
    RootsAmongFacts(tree, DependedUpon(tree));
    forall n | n in tree && n.key in DependedUpon(tree)
      ensures exists m :: m in tree && n.key in m.dependencies
    {
      var i :| 0 <= i < |tree| && n.key in tree[i].dependencies;
      assert tree[i] in tree;
    }
  }

  /** A tree without dependency edges: every node is a root, in the same order. */
  lemma {:induction false} NoEdgesAllRoots(tree: seq<TreeNode>)
    requires forall n :: n in tree ==> n.dependencies == []
    ensures Roots(tree) == tree
  {
    assert DependedUpon(tree) == {};
    RootsAmongNothing(tree);
  }

  lemma {:induction false} RootsAmongNothing(nodes: seq<TreeNode>)
    ensures RootsAmong(nodes, {}) == nodes
    decreases |nodes|
  {
    if |nodes| > 0 {
      RootsAmongNothing(nodes[..|nodes| - 1]);
      assert nodes == nodes[..|nodes| - 1] + [nodes[|nodes| - 1]];
    }
  }

  /** A node that lists itself as a dependency is never a root. */
  lemma SelfDependentNotRoot(tree: seq<TreeNode>, n: TreeNode)
    requires n in tree && n.key in n.dependencies
    ensures n !in Roots(tree)
  {
    RootsCharacterisation(tree);
  }

  /** When every node is someone's dependency there are no roots. */
  lemma FullyReferencedNoRoots(tree: seq<TreeNode>)
    requires forall n :: n in tree ==> exists m :: m in tree && n.key in m.dependencies
    ensures Roots(tree) == []
  {
    forall n | n in tree ensures n.key in DependedUpon(tree) {
      var m :| m in tree && n.key in m.dependencies;
      var i :| 0 <= i < |tree| && tree[i] == m;
      DependedUponListed(tree, i, n.key);
    }
    RootsAmongAllDepended(tree, DependedUpon(tree));
  }

  /** A key listed by any node of the tree is depended upon. */
  lemma DependedUponListed(tree: seq<TreeNode>, i: nat, k: string)
    requires i < |tree| && k in tree[i].dependencies
    ensures k in DependedUpon(tree)
  {
  }

  lemma {:induction false} RootsAmongAllDepended(nodes: seq<TreeNode>, depended: set<string>)
    requires forall n :: n in nodes ==> n.key in depended
    ensures RootsAmong(nodes, depended) == []
    decreases |nodes|
  {
    if |nodes| > 0 {
      assert nodes[|nodes| - 1] in nodes;
      RootsAmongAllDepended(nodes[..|nodes| - 1], depended);
    }
  }

  /** How a root is written: `key==installed_version`. */
  function Pin(n: TreeNode): string
  {
    n.key + "==" + n.installedVersion
  }

  /** The pins of the roots, in order (`export_conda_env.py`, lines 162-165). */
  function RootPins(roots: seq<TreeNode>): (pins: seq<string>)
    ensures |pins| == |roots|
  {
    seq(|roots|, i requires 0 <= i < |roots| => Pin(roots[i]))
  }

  /** A pin reads back, by the same name rule as the manager specs, as the node's key. */
  lemma PinNamesKey(n: TreeNode)
    requires '=' !in n.key
    ensures PackageName(Pin(n)) == n.key
    ensures Pin(n)[|n.key| + 2..] == n.installedVersion
  {
    var p := Pin(n);
    assert p[..|n.key|] == n.key;
    assert p[|n.key|] == '=';
    assert forall j :: 0 <= j < |n.key| ==> p[j] != '=';
  }

  // ---------------------------------------------------------------------------
  // The manifest
  // ---------------------------------------------------------------------------

  /** `"\n".join(pins) + "\n"`: the content of `requirements.txt`. */
  function RequirementsText(pins: seq<string>): string
  {
    Join(pins, "\n") + "\n"
  }

  /**
   * Reading `requirements.txt` back line by line gives the pins again, then the empty
   * piece after the final newline, provided there is a pin and none holds a newline.
   */
  lemma RequirementsRoundTrip(pins: seq<string>)
    requires |pins| > 0
    requires forall k :: 0 <= k < |pins| ==> '\n' !in pins[k]
    ensures Split(RequirementsText(pins), "\n") == pins + [""]
  {
    SplitJoinTerminated(pins, '\n');
  }

  /** The manager specs as structured-manifest entries. */
  function CondaEntries(specs: seq<string>): (entries: seq<YmlEntry>)
    ensures |entries| == |specs|
  {
    seq(|specs|, i requires 0 <= i < |specs| => CondaEntry(specs[i]))
  }

  /**
   * The choice between the two manifests (`export_conda_env.py`, lines 168-190): any
   * manager-only package makes it the structured file named `exported_env`, listing the
   * manager specs first and then one pip block exactly when there are pip packages;
   * otherwise it is the requirements text.
   */
  function ChooseManifest(condaOnly: seq<string>, pipPackages: seq<string>): (m: Manifest)
    ensures m.EnvironmentYml? <==> |condaOnly| > 0
    ensures m.EnvironmentYml? ==>
              && m.name == ExportedEnvName
              && |m.dependencies| == |condaOnly| + (if |pipPackages| > 0 then 1 else 0)
              && (forall i :: 0 <= i < |condaOnly| ==> m.dependencies[i] == CondaEntry(condaOnly[i]))
              && (|pipPackages| > 0 ==> m.dependencies[|condaOnly|] == PipBlock(pipPackages))
    ensures m.EnvironmentYml? ==> ((exists e :: e in m.dependencies && e.PipBlock?) <==> |pipPackages| > 0)
    ensures m.RequirementsTxt? ==> m.text == RequirementsText(pipPackages)
  {
    if |condaOnly| > 0 then
      var dependencies := CondaEntries(condaOnly) + (if |pipPackages| > 0 then [PipBlock(pipPackages)] else []);
      assert |pipPackages| > 0 ==> dependencies[|condaOnly|] in dependencies;
      assert forall e :: e in CondaEntries(condaOnly) ==> e.CondaEntry?;
      EnvironmentYml(ExportedEnvName, dependencies)
    else
      RequirementsTxt(RequirementsText(pipPackages))
  }

  /**
   * The whole export (`export_conda_env.py`, lines 129-190) once the external tools have
   * answered: classify, append the root pins to the pip list, and build the manifest by
   * extending and appending to its dependency list.
   */
  method ExportEnvironment(explicitDeps: seq<DepEntry>, onIndex: string -> bool, tree: seq<TreeNode>)
    returns (m: Manifest)
    ensures m == ChooseManifest(CondaPart(explicitDeps, onIndex),
                                PipPart(explicitDeps, onIndex) + RootPins(Roots(tree)))
    ensures m.EnvironmentYml? <==> exists s :: Spec(s) in explicitDeps && !onIndex(PackageName(s))
  {
    var pipPackages, condaOnly := Classify(explicitDeps, onIndex);
    var rootNodes := Roots(tree);
    pipPackages := pipPackages + RootPins(rootNodes);
    if |condaOnly| > 0 {
      var dependencies: seq<YmlEntry> := [];
      dependencies := dependencies + CondaEntries(condaOnly);
      if |pipPackages| > 0 {
        dependencies := dependencies + [PipBlock(pipPackages)];
      }
      m := EnvironmentYml(ExportedEnvName, dependencies);
    } else {
      m := RequirementsTxt(RequirementsText(pipPackages));
    }
    ManagerOnlyExists(explicitDeps, onIndex);
  }

  /** There is a manager-only entry exactly when some string entry's name is off the index. */
  lemma ManagerOnlyExists(deps: seq<DepEntry>, onIndex: string -> bool)
    ensures |CondaPart(deps, onIndex)| > 0 <==> exists s :: Spec(s) in deps && !onIndex(PackageName(s))
  {
    ClassifyPartition(deps, onIndex);
    ClassifyNames(deps, onIndex);
    SpecsMembers(deps);
    var conda, specs := CondaPart(deps, onIndex), Specs(deps);
    var undone := UndoPipAll(PipPart(deps, onIndex));
    if |conda| > 0 {
      var s := conda[0];
      assert s in multiset(conda);
      assert s in multiset(specs);
      assert Spec(s) in deps;
    } else {
      assert multiset(undone) == multiset(specs);
      forall s | Spec(s) in deps ensures onIndex(PackageName(s)) {
        assert s in multiset(specs);
        assert s in undone;
      }
    }
  }

  // ---------------------------------------------------------------------------
  // Import name to package name (`ensure_import`, line 91)
  // ---------------------------------------------------------------------------

  /** `PACKAGE_MAP`: import names whose package on the index has another name. */
  const PackageMap: map<string, string> := map[
    "yaml" := "pyyaml",
    "bs4" := "beautifulsoup4",
    "PIL" := "pillow",
    "cv2" := "opencv-python",
    "Crypto" := "pycryptodome",
    "dateutil" := "python-dateutil",
    "pkg_resources" := "setuptools",
    "mpl_toolkits" := "matplotlib",
    "sklearn" := "scikit-learn",
    "skimage" := "scikit-image",
    "psycopg2" := "psycopg2-binary",
    "importlib_metadata" := "importlib-metadata",
    "fitz" := "pymupdf",
    "socks" := "pysocks",
    "dotenv" := "python-dotenv",
    "sqlalchemy_schemadisplay" := "sqlalchemy-schemadisplay",
    "win_inet_pton" := "win-inet-pton",
    "youtube_dl" := "youtube-dl"
  ]

  /** `PACKAGE_MAP.get(module_name, module_name)`. */
  function PackageFor(moduleName: string): string
  {
    if moduleName in PackageMap then PackageMap[moduleName] else moduleName
  }

  /** A mapped import name gives its package; any other name is its own package. */
  lemma PackageForSpec(moduleName: string)
    ensures moduleName in PackageMap ==> PackageFor(moduleName) == PackageMap[moduleName] != moduleName
    ensures moduleName !in PackageMap ==> PackageFor(moduleName) == moduleName
    ensures PackageFor("yaml") == "pyyaml" && PackageFor("pipdeptree") == "pipdeptree"
  {
  }
}
