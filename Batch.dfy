/**
 * The two drivers that patch a list of modules: `patchingNetBeans` of the
 * GUI utility, which stops at the first failure, and the command-line entry
 * point of FriendlizerApp, which ignores every result.
 */
module Batch {
  import opened Wrappers
  import opened Manifest
  import opened Jar
  import opened JavaStrings
  import opened Files
  import opened Patcher

  /** The platform's answers for the patch of the module at each list position. */
  type Environment = nat -> Faults

  /** An environment that answers every patch the same way. */
  function Always(f: Faults): Environment {
    k => f
  }

  /** The NetBeans 7.2.1 modules the GUI utility patches, relative to the installation folder. */
  const NetBeansModules: seq<string> := [
    "ide/modules/org-netbeans-modules-html-editor-lib.jar",
    "java/modules/org-netbeans-modules-j2ee-persistence.jar",
    "java/modules/org-netbeans-modules-j2ee-persistenceapi.jar",
    "ide/modules/org-netbeans-modules-web-common.jar"]

  /** The installation folder of the command-line tool. */
  const AppRoot := "/home/quanghx/modules/"

  /** The modules the command-line tool patches: one module, listed twice. */
  const AppModules: seq<string> := [
    "platform/modules/org-netbeans-modules-progress-ui.jar",
    "platform/modules/org-netbeans-modules-progress-ui.jar"]

  /** The installation path with a trailing slash. */
  function IdeFolder(path: Path): (r: Path)
    ensures EndsWith(r, "/") && StartsWith(r, path)
    ensures EndsWith(path, "/") ==> r == path
    ensures !EndsWith(path, "/") ==> r == path + "/"
  {
    if EndsWith(path, "/") then path
    else
      assert (path + "/")[..|path|] == path;
      path + "/"
  }

  /**
   * The loop of `patchingNetBeans` from position i on: a path that is no
   * regular file is skipped, any other is patched, and the first failure ends
   * the run with false.
   */
  function RunNetBeans(nodes: map<Path, Node>, folder: Path, modules: seq<string>, env: Environment, i: nat)
    : (r: (bool, map<Path, Node>))
    requires i <= |modules|
    ensures (forall k :: i <= k < |modules| ==> !IsFile(nodes, folder + modules[k])) ==> r == (true, nodes)
    decreases |modules| - i
  {
    if i == |modules| then (true, nodes)
    else
      var path := folder + modules[i];
      if !IsFile(nodes, path) then RunNetBeans(nodes, folder, modules, env, i + 1)
      else
        var (ok, after) := Patch(nodes, path, env(i));
        if ok then RunNetBeans(after, folder, modules, env, i + 1) else (false, after)
  }

  /** `patchingNetBeans(path)`: a path that is no directory succeeds untouched. */
  function PatchNetBeans(nodes: map<Path, Node>, path: Path, modules: seq<string>, env: Environment)
    : (bool, map<Path, Node>)
  {
    if IsDirectory(nodes, path) then RunNetBeans(nodes, IdeFolder(path), modules, env, 0) else (true, nodes)
  }

  method PatchingNetBeans(fs: FileSystem, netbeansPath: Path, env: Environment) returns (ok: bool)
    modifies fs
    ensures (ok, fs.nodes) == PatchNetBeans(old(fs.nodes), netbeansPath, NetBeansModules, env)
  {
    if netbeansPath in fs.nodes && IsDirectory(fs.nodes, netbeansPath) {
      var ideFolder := if EndsWith(netbeansPath, "/") then netbeansPath else netbeansPath + "/";
      for i := 0 to |NetBeansModules|
        invariant PatchNetBeans(old(fs.nodes), netbeansPath, NetBeansModules, env)
          == RunNetBeans(fs.nodes, ideFolder, NetBeansModules, env, i)
      {
        var modulePath := ideFolder + NetBeansModules[i];
        if IsFile(fs.nodes, modulePath) {
          var patched := PatchingModuleJarFile(fs, modulePath, env(i));
          if !patched {
            return false;
          }
        }
      }
    }
    return true;
  }

  /** Outside an existing directory the GUI utility reports success and changes nothing. */
  lemma NotAFolderSucceeds(nodes: map<Path, Node>, path: Path, modules: seq<string>, env: Environment)
    requires !IsDirectory(nodes, path)
    ensures PatchNetBeans(nodes, path, modules, env) == (true, nodes)
  {
  }

  /**
   * Running a list in two parts: after a failure in the first part, later
   * modules are never looked at; after a success, the second part runs on the
   * file system the first part left.
   */
  lemma {:induction false} RunNetBeansSplits(
    nodes: map<Path, Node>, folder: Path, modules: seq<string>, extra: seq<string>, env: Environment, i: nat)
    requires i <= |modules|
    ensures var (ok, after) := RunNetBeans(nodes, folder, modules, env, i);
      RunNetBeans(nodes, folder, modules + extra, env, i)
        == if ok then RunNetBeans(after, folder, modules + extra, env, |modules|) else (ok, after)
    decreases |modules| - i
  {
    var all := modules + extra;
    if i < |modules| {
      assert all[i] == modules[i];
      var path := folder + modules[i];
      if !IsFile(nodes, path) {
        RunNetBeansSplits(nodes, folder, modules, extra, env, i + 1);
      } else {
        var after := Patch(nodes, path, env(i)).1;
        RunNetBeansSplits(after, folder, modules, extra, env, i + 1);
      }
    }
  }

  /**
   * The loop of the command-line entry point from position i on: a module
   * whose name ends in "jar" and whose path is a regular file is patched and
   * the result ignored. Gives the paths patched, each with its result, and
   * the file system at the end.
   */
  function RunApp(nodes: map<Path, Node>, root: Path, modules: seq<string>, env: Environment, i: nat)
    : (r: (seq<(Path, bool)>, map<Path, Node>))
    requires i <= |modules|
    ensures (forall k :: i <= k < |modules| ==> !EndsWith(modules[k], "jar")) ==> r == ([], nodes)
    decreases |modules| - i
  {
    if i == |modules| then ([], nodes)
    else
      var path := root + modules[i];
      if EndsWith(modules[i], "jar") && IsFile(nodes, path) then
        var patched := Patch(nodes, path, env(i));
        var rest := RunApp(patched.1, root, modules, env, i + 1);
        ([(path, patched.0)] + rest.0, rest.1)
      else
        RunApp(nodes, root, modules, env, i + 1)
  }

  /** The command-line entry point: patch the listed modules under the fixed root. */
  method FriendlizeModules(fs: FileSystem, env: Environment)
    modifies fs
    ensures fs.nodes == RunApp(old(fs.nodes), AppRoot, AppModules, env, 0).1
  {
    for i := 0 to |AppModules|
      invariant RunApp(old(fs.nodes), AppRoot, AppModules, env, 0).1 == RunApp(fs.nodes, AppRoot, AppModules, env, i).1
    {
      var name := AppModules[i];
      var moduleFile := AppRoot + name;
      if EndsWith(name, "jar") && IsFile(fs.nodes, moduleFile) {
        var ignored := PatchingModuleJarFile(fs, moduleFile, env(i));
      }
    }
  }

  /**
   * The two drivers agree when every module name ends in "jar": the GUI
   * utility succeeds exactly when none of the command-line tool's attempts
   * fails, and then both leave the same file system.
   */
  lemma {:induction false} BatchPolicies(nodes: map<Path, Node>, folder: Path, modules: seq<string>, env: Environment, i: nat)
    requires i <= |modules|
    requires forall k :: i <= k < |modules| ==> EndsWith(modules[k], "jar")
    ensures var (ok, after) := RunNetBeans(nodes, folder, modules, env, i);
      var (attempts, final) := RunApp(nodes, folder, modules, env, i);
      (ok <==> forall k :: 0 <= k < |attempts| ==> attempts[k].1)
      && (ok ==> after == final)
    decreases |modules| - i
  {
    if i < |modules| {
      var path := folder + modules[i];
      if !IsFile(nodes, path) {
        BatchPolicies(nodes, folder, modules, env, i + 1);
      } else {
        var (ok, after) := Patch(nodes, path, env(i));
        BatchPolicies(after, folder, modules, env, i + 1);
        var rest := RunApp(after, folder, modules, env, i + 1).0;
        var attempts := [(path, ok)] + rest;
        assert forall k :: 0 <= k < |rest| ==> attempts[k + 1] == rest[k];
        if !ok {
          assert !attempts[0].1;
        }
      }
    }
  }

  /** The paths the command-line loop would patch, judged on the file system it starts from. */
  function JarPaths(nodes: map<Path, Node>, root: Path, modules: seq<string>, i: nat): seq<Path>
    requires i <= |modules|
    decreases |modules| - i
  {
    if i == |modules| then []
    else
      var path := root + modules[i];
      (if EndsWith(modules[i], "jar") && IsFile(nodes, path) then [path] else [])
        + JarPaths(nodes, root, modules, i + 1)
  }

  /** Two file systems that agree on which listed paths are regular files select the same paths. */
  lemma {:induction false} JarPathsFrame(n1: map<Path, Node>, n2: map<Path, Node>, root: Path, modules: seq<string>, i: nat)
    requires i <= |modules|
    requires forall k :: i <= k < |modules| && EndsWith(modules[k], "jar") ==>
      (IsFile(n1, root + modules[k]) <==> IsFile(n2, root + modules[k]))
    ensures JarPaths(n1, root, modules, i) == JarPaths(n2, root, modules, i)
    decreases |modules| - i
  {
    if i < |modules| {
      JarPathsFrame(n1, n2, root, modules, i + 1);
    }
  }

  /** A path ending in "jar" is never a temporary archive, whose path ends in ".zip". */
  lemma JarPathIsNoTempPath(root: Path, name: string, x: Path)
    requires EndsWith(name, "jar")
    ensures root + name != TempPath(x)
  {
    var p := root + name;
    var t := TempPath(x);
    assert p[|p| - 1] == name[|name| - 1] == 'r';
    assert t[|t| - 1] == TempSuffix[|TempSuffix| - 1] == 'p';
  }

  /**
   * With distinct module names, patching one module never changes whether a
   * later listed path is a regular file, so the command-line tool patches
   * exactly the listed jar files present when it starts, in list order.
   */
  lemma {:induction false} AppAttemptsEveryListedJar(nodes: map<Path, Node>, root: Path, modules: seq<string>, env: Environment, i: nat)
    requires i <= |modules|
    requires forall j, k :: i <= j < k < |modules| ==> modules[j] != modules[k]
    ensures var attempts := RunApp(nodes, root, modules, env, i).0;
      var expected := JarPaths(nodes, root, modules, i);
      |attempts| == |expected| && forall k :: 0 <= k < |attempts| ==> attempts[k].0 == expected[k]
    decreases |modules| - i
  {
    if i < |modules| {
      var path := root + modules[i];
      if EndsWith(modules[i], "jar") && IsFile(nodes, path) {
        var after := Patch(nodes, path, env(i)).1;
        PatchTouchesOnlyArchiveAndTemp(nodes, path, env(i));
        forall k | i + 1 <= k < |modules| && EndsWith(modules[k], "jar")
          ensures IsFile(after, root + modules[k]) <==> IsFile(nodes, root + modules[k])
        {
          assert (root + modules[k])[|root|..] == modules[k];
          assert path[|root|..] == modules[i];
          JarPathIsNoTempPath(root, modules[k], path);
        }
        JarPathsFrame(after, nodes, root, modules, i + 1);
        AppAttemptsEveryListedJar(after, root, modules, env, i + 1);
      } else {
        AppAttemptsEveryListedJar(nodes, root, modules, env, i + 1);
      }
    }
  }

  /** Without faults, patching a regular file leaves a regular file at its path. */
  lemma PatchKeepsFile(nodes: map<Path, Node>, path: Path)
    requires IsFile(nodes, path)
    ensures IsFile(Patch(nodes, path, NoFaults).1, path)
  {
    if NeedsRewrite(nodes, path) && !IsDirectory(nodes, TempPath(path)) {
      RewriteWithoutFaults(nodes, path);
    }
  }

  /**
   * A module listed twice, without faults, is patched twice with the same
   * result, and the second patch changes nothing.
   */
  lemma RepeatedModulePatchedTwiceAlike(nodes: map<Path, Node>, root: Path, name: string)
    ensures var once := RunApp(nodes, root, [name], Always(NoFaults), 0);
      var twice := RunApp(nodes, root, [name, name], Always(NoFaults), 0);
      twice.1 == once.1 && twice.0 == once.0 + once.0
  {
    var path := root + name;
    var env := Always(NoFaults);
    var ms, one := [name, name], [name];
    assert ms[0] == name && ms[1] == name && one[0] == name;
    if EndsWith(name, "jar") && IsFile(nodes, path) {
      var first := Patch(nodes, path, NoFaults);
      PatchKeepsFile(nodes, path);
      PatchIdempotent(nodes, path);
      assert env(0) == NoFaults && env(1) == NoFaults;
      assert IsFile(first.1, root + ms[1]) && Patch(first.1, root + ms[1], env(1)) == first;
      assert RunApp(first.1, root, ms, env, 2) == ([], first.1);
      var r1 := RunApp(first.1, root, ms, env, 1);
      assert r1.0 == [(path, first.0)] && r1.1 == first.1;
      assert RunApp(nodes, root, one, env, 0) == ([(path, first.0)], first.1);
    } else {
      assert RunApp(nodes, root, ms, env, 1) == ([], nodes);
    }
  }

  /** The command-line tool's own list, without faults: its second entry repeats the first and changes nothing. */
  lemma AppListRepeatsOneModule(nodes: map<Path, Node>)
    ensures var twice := RunApp(nodes, AppRoot, AppModules, Always(NoFaults), 0);
      var once := RunApp(nodes, AppRoot, [AppModules[0]], Always(NoFaults), 0);
      twice.1 == once.1 && twice.0 == once.0 + once.0
  {
    RepeatedModulePatchedTwiceAlike(nodes, AppRoot, AppModules[0]);
  }

  /** The platform answers the first patch without faults and every later one with f. */
  function FirstWithoutFaults(f: Faults): Environment {
    k => if k == 0 then NoFaults else f
  }

  /** A jar module listed twice that is still a regular file after its first patch is patched twice, in turn. */
  lemma RunAppTwice(nodes: map<Path, Node>, root: Path, name: string, env: Environment)
    requires EndsWith(name, "jar") && IsFile(nodes, root + name)
    requires IsFile(Patch(nodes, root + name, env(0)).1, root + name)
    ensures var first := Patch(nodes, root + name, env(0));
      var second := Patch(first.1, root + name, env(1));
      RunApp(nodes, root, [name, name], env, 0) == ([(root + name, first.0), (root + name, second.0)], second.1)
  {
    var ms := [name, name];
    var path := root + name;
    assert ms[0] == name && ms[1] == name;
    assert root + ms[0] == path && root + ms[1] == path;
    var first := Patch(nodes, path, env(0));
    var second := Patch(first.1, path, env(1));
    var last := RunApp(second.1, root, ms, env, 2);
    assert last == ([], second.1);
    var rest := RunApp(first.1, root, ms, env, 1);
    assert rest == ([(path, second.0)] + last.0, last.1);
    assert RunApp(nodes, root, ms, env, 0) == ([(path, first.0)] + rest.0, rest.1);
    assert [(path, first.0)] + rest.0 == [(path, first.0), (path, second.0)];
  }

  /**
   * A module listed twice is rewritten twice. When the first pass succeeds
   * and only the second pass's rename fails, the archive the first pass had
   * already patched is left as an empty file.
   */
  lemma RepeatOnRenameFailureLosesArchive(nodes: map<Path, Node>, root: Path, name: string)
    requires EndsWith(name, "jar") && NeedsRewrite(nodes, root + name) && TempPath(root + name) !in nodes
    ensures var (reports, after) := RunApp(nodes, root, [name, name], FirstWithoutFaults(Faults(None, false, false, true)), 0);
      reports == [(root + name, true), (root + name, false)]
      && root + name in after && after[root + name] == File(Empty, true)
  {
    var env := FirstWithoutFaults(Faults(None, false, false, true));
    assert env(0) == NoFaults && env(1) == Faults(None, false, false, true);
    RepatchOnRenameFailureEmpties(nodes, root + name);
    RunAppTwice(nodes, root, name, env);
  }
}
