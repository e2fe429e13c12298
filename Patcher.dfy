/**
 * Patching one module archive (`patchingModuleJarFile` and `replaceFile`):
 * open the archive, update the friend list of its manifest, copy everything
 * into a temporary archive beside it, and move that archive over the
 * original by delete, create and rename.
 */
module Patcher {
  import opened Wrappers
  import opened JavaStrings
  import opened Manifest
  import opened Jar
  import opened Files

  /** What is appended to an archive's path to name its temporary copy. */
  const TempSuffix := "_vep_tool_template.zip"

  /** The temporary archive beside `filename`. */
  function TempPath(filename: Path): (r: Path)
    ensures r != filename && StartsWith(r, filename) && EndsWith(r, TempSuffix)
    ensures |r| == |filename| + |TempSuffix|
  {
    assert (filename + TempSuffix)[..|filename|] == filename;
    filename + TempSuffix
  }

  /** The four checks `replaceFile` makes before it touches anything. */
  predicate CanReplace(nodes: map<Path, Node>, target: Path, temp: Path) {
    target in nodes && IsFile(nodes, target) && temp in nodes && CanRead(nodes, temp)
  }

  /**
   * `replaceFile(target, temp)`: its result and the file system afterwards.
   * The target is deleted (a failed delete is ignored), recreated empty
   * (an IOException ends the replacement), and the temporary file is renamed
   * onto it; the rename's answer is the result.
   */
  function Replace(nodes: map<Path, Node>, target: Path, temp: Path, f: Faults): (r: (bool, map<Path, Node>))
    ensures r.0 ==> CanReplace(nodes, target, temp) && !f.createThrows && !f.renameFails
    ensures !CanReplace(nodes, target, temp) ==> r == (false, nodes)
  {
    if !CanReplace(nodes, target, temp) then (false, nodes)
    else
      var deleted := if f.deleteFails then nodes else nodes - {target};
      if f.createThrows then (false, deleted)
      else
        var created := if target in deleted then deleted else deleted[target := File(Empty, true)];
        if f.renameFails || temp !in created then (false, created)
        else (true, (created - {temp})[target := created[temp]])
  }

  method ReplaceFile(fs: FileSystem, target: Path, temp: Path, f: Faults) returns (ok: bool)
    modifies fs
    ensures (ok, fs.nodes) == Replace(old(fs.nodes), target, temp, f)
  {
    if target in fs.nodes && IsFile(fs.nodes, target) && temp in fs.nodes && CanRead(fs.nodes, temp) {
      var deleted := fs.Delete(target, f.deleteFails);
      var created := fs.CreateNewFile(target, f.createThrows);
      if created.None? {
        return false;
      }
      ok := fs.RenameTo(temp, target, f.renameFails);
    } else {
      ok := false;
    }
  }

  /**
   * When the replacement's preconditions hold, it succeeds exactly when the
   * create does not throw and the rename works; success leaves the temporary
   * file's node at the target and the temporary path free, and no other path
   * is touched in any case.
   */
  lemma ReplaceOutcome(nodes: map<Path, Node>, target: Path, temp: Path, f: Faults)
    requires target != temp
    ensures var (ok, after) := Replace(nodes, target, temp, f);
      (ok <==> CanReplace(nodes, target, temp) && !f.createThrows && !f.renameFails)
      && (ok ==> after == (nodes - {temp})[target := nodes[temp]])
      && (!CanReplace(nodes, target, temp) ==> after == nodes)
      && forall p :: p != target && p != temp ==> (p in after <==> p in nodes) && (p in after ==> after[p] == nodes[p])
  {
  }

  /**
   * A rename that fails after the delete and the create leaves the original
   * archive replaced by an empty file, and the patched copy at its temporary path.
   */
  lemma RenameFailureLosesOriginal(nodes: map<Path, Node>, target: Path, temp: Path)
    requires target != temp && CanReplace(nodes, target, temp)
    ensures var (ok, after) := Replace(nodes, target, temp, Faults(None, false, false, true));
      !ok && after[target] == File(Empty, true) && after[temp] == nodes[temp]
  {
  }

  /** A regular file at p holding `content`. */
  predicate Holds(nodes: map<Path, Node>, p: Path, content: Content) {
    IsFile(nodes, p) && nodes[p].content == content
  }

  /** The archive at `filename` opens, has a manifest, and the update reports a patch: a rewrite is attempted. */
  predicate NeedsRewrite(nodes: map<Path, Node>, filename: Path) {
    OpenJar(nodes, filename).Some?
    && GetManifest(OpenJar(nodes, filename).value).Found?
    && Updated(GetManifest(OpenJar(nodes, filename).value).main).0
  }

  /**
   * The rewrite of an archive whose manifest update reported a patch: write the
   * temporary archive (unless its path is a directory, which the output stream
   * cannot open) and, if the copy completed, replace the original with it.
   */
  function Rewrite(nodes: map<Path, Node>, filename: Path, source: seq<Entry>, main: seq<Attribute>, f: Faults)
    : (bool, map<Path, Node>)
  {
    var temp := TempPath(filename);
    if IsDirectory(nodes, temp) then (false, nodes)
    else
      var (copied, written) := CopyResult(source, main, f.writeFailsAt);
      var withTemp := nodes[temp := Written(nodes, temp, if copied then Archive(written) else Partial(written))];
      if copied then Replace(withTemp, filename, temp, f) else (false, withTemp)
  }

  /**
   * `patchingModuleJarFile(filename)`: its result and the file system
   * afterwards. An archive that cannot be opened, or whose manifest cannot be
   * read, fails untouched; one without a manifest, or whose manifest has no
   * friend list, succeeds untouched; any other is rewritten.
   */
  function Patch(nodes: map<Path, Node>, filename: Path, f: Faults): (r: (bool, map<Path, Node>))
    ensures OpenJar(nodes, filename).None? ==> r == (false, nodes)
    ensures !NeedsRewrite(nodes, filename) ==> r.1 == nodes
  {
    match OpenJar(nodes, filename)
    case None => (false, nodes)
    case Some(source) =>
      match GetManifest(source)
      case NoManifest => (true, nodes)
      case Unparsable => (false, nodes)
      case Found(main) =>
        var (patched, updated) := Updated(main);
        if patched then Rewrite(nodes, filename, source, updated, f) else (true, nodes)
  }

  method PatchingModuleJarFile(fs: FileSystem, filename: Path, f: Faults) returns (ok: bool)
    modifies fs
    ensures (ok, fs.nodes) == Patch(old(fs.nodes), filename, f)
  {
    var temporaryFile := TempPath(filename);
    var jarfile := OpenJar(fs.nodes, filename);
    if jarfile.None? {
      return false;
    }
    match GetManifest(jarfile.value)
    case NoManifest =>
      return true;
    case Unparsable =>
      return false;
    case Found(main) =>
      var attributes := new Attributes(main);
      var patched := attributes.UpdateFriendList();
      if !patched {
        return true;
      }
      var ret := false;
      if !IsDirectory(fs.nodes, temporaryFile) {
        var written;
        ret, written := CopyAllJarEntries(jarfile.value, attributes.pairs, f.writeFailsAt);
        fs.Store(temporaryFile, if ret then Archive(written) else Partial(written));
      }
      if ret {
        ok := ReplaceFile(fs, filename, temporaryFile, f);
      } else {
        ok := false;
      }
  }

  /**
   * Without a rewrite nothing changes: the result is failure for an archive
   * that does not open or whose manifest does not parse, success otherwise.
   */
  lemma PatchWithoutRewrite(nodes: map<Path, Node>, filename: Path, f: Faults)
    requires !NeedsRewrite(nodes, filename)
    ensures Patch(nodes, filename, f).1 == nodes
    ensures Patch(nodes, filename, f).0
      <==> OpenJar(nodes, filename).Some? && !GetManifest(OpenJar(nodes, filename).value).Unparsable?
  {
  }

  /** Patching changes at most two paths: the archive and its temporary copy. */
  lemma PatchTouchesOnlyArchiveAndTemp(nodes: map<Path, Node>, filename: Path, f: Faults)
    ensures var after := Patch(nodes, filename, f).1;
      forall p :: p != filename && p != TempPath(filename) ==>
        (p in after <==> p in nodes) && (p in after ==> after[p] == nodes[p])
  {
    if NeedsRewrite(nodes, filename) {
      var source := OpenJar(nodes, filename).value;
      var updated := Updated(GetManifest(source).main).1;
      var temp := TempPath(filename);
      if !IsDirectory(nodes, temp) {
        var (copied, written) := CopyResult(source, updated, f.writeFailsAt);
        var withTemp := nodes[temp := Written(nodes, temp, if copied then Archive(written) else Partial(written))];
        ReplaceOutcome(withTemp, filename, temp, f);
      }
    }
  }

  /**
   * Whatever the platform does, a reported success after a rewrite means the
   * archive now holds the updated manifest first and every other entry of the
   * original after it, and the temporary copy is gone.
   */
  lemma PatchSuccessMeansPatched(nodes: map<Path, Node>, filename: Path, f: Faults)
    requires NeedsRewrite(nodes, filename) && Patch(nodes, filename, f).0
    ensures var source := OpenJar(nodes, filename).value;
      var updated := Updated(GetManifest(source).main).1;
      var after := Patch(nodes, filename, f).1;
      TempPath(filename) !in after
      && after[filename] == File(Archive(PatchedEntries(source, updated)), true)
  {
    var source := OpenJar(nodes, filename).value;
    var updated := Updated(GetManifest(source).main).1;
    var temp := TempPath(filename);
    var (copied, written) := CopyResult(source, updated, f.writeFailsAt);
    var withTemp := nodes[temp := Written(nodes, temp, if copied then Archive(written) else Partial(written))];
    ReplaceOutcome(withTemp, filename, temp, f);
  }

  /**
   * Whatever the platform answers, the replacement leaves the target's node,
   * or the temporary file's node at the target, or that node at the temporary path.
   */
  lemma ReplaceKeepsOneCopy(nodes: map<Path, Node>, target: Path, temp: Path, f: Faults)
    requires target != temp && target in nodes && temp in nodes
    ensures var after := Replace(nodes, target, temp, f).1;
      (target in after && after[target] == nodes[target])
      || (target in after && after[target] == nodes[temp])
      || (temp in after && after[temp] == nodes[temp])
  {
  }

  /**
   * Whatever the platform does, a rewrite never loses both versions: the
   * archive keeps its node, or it holds the patched archive, or the patched
   * archive is left at the temporary path.
   */
  lemma PatchKeepsOneCopy(nodes: map<Path, Node>, filename: Path, f: Faults)
    requires NeedsRewrite(nodes, filename)
    ensures var source := OpenJar(nodes, filename).value;
      var w := PatchedEntries(source, Updated(GetManifest(source).main).1);
      var after := Patch(nodes, filename, f).1;
      (filename in after && after[filename] == nodes[filename])
      || Holds(after, filename, Archive(w))
      || Holds(after, TempPath(filename), Archive(w))
  {
    var source := OpenJar(nodes, filename).value;
    var updated := Updated(GetManifest(source).main).1;
    var temp := TempPath(filename);
    if !IsDirectory(nodes, temp) {
      var (copied, written) := CopyResult(source, updated, f.writeFailsAt);
      if copied {
        var withTemp := nodes[temp := Written(nodes, temp, Archive(written))];
        assert Patch(nodes, filename, f) == Replace(withTemp, filename, temp, f);
        ReplaceKeepsOneCopy(withTemp, filename, temp, f);
      }
    }
  }

  /**
   * When the delete works and the create then throws, the archive's path is
   * left with no file at all; only the temporary copy holds the patched archive.
   */
  lemma CreateFailureLosesArchive(nodes: map<Path, Node>, filename: Path)
    requires NeedsRewrite(nodes, filename)
    requires var temp := TempPath(filename); temp !in nodes || (IsFile(nodes, temp) && nodes[temp].readable)
    ensures var source := OpenJar(nodes, filename).value;
      var w := PatchedEntries(source, Updated(GetManifest(source).main).1);
      var (ok, after) := Patch(nodes, filename, Faults(None, false, true, false));
      !ok && filename !in after && Holds(after, TempPath(filename), Archive(w))
  {
  }

  /**
   * Without faults, and with a free or readable temporary path, a rewrite
   * succeeds; the patched archive opens, its manifest is the updated one with
   * the friend list naming the tools module, and its other entries are the
   * original's, in order.
   */
  lemma PatchSucceedsWithoutFaults(nodes: map<Path, Node>, filename: Path)
    requires NeedsRewrite(nodes, filename)
    requires var temp := TempPath(filename); temp !in nodes || (IsFile(nodes, temp) && nodes[temp].readable)
    ensures var source := OpenJar(nodes, filename).value;
      var updated := Updated(GetManifest(source).main).1;
      var (ok, after) := Patch(nodes, filename, NoFaults);
      ok
      && OpenJar(after, filename) == Some(PatchedEntries(source, updated))
      && GetManifest(PatchedEntries(source, updated)) == Found(updated)
      && FriendSlot(updated).Some?
      && Contains(updated[FriendSlot(updated).value].value.text, FriendList.Target)
      && Kept(PatchedEntries(source, updated)) == Kept(source)
  {
    var source := OpenJar(nodes, filename).value;
    var main := GetManifest(source).main;
    var updated := Updated(main).1;
    assert Patch(nodes, filename, NoFaults).0;
    PatchSuccessMeansPatched(nodes, filename, NoFaults);
    PatchedEntriesWellFormed(source, updated);
    UpdatedSlotNamesTarget(main);
  }

  /**
   * What a rewrite without faults does, spelled out: the temporary copy is
   * written and, if the replacement may read it, moved over the archive.
   */
  lemma RewriteWithoutFaults(nodes: map<Path, Node>, filename: Path)
    requires NeedsRewrite(nodes, filename) && !IsDirectory(nodes, TempPath(filename))
    ensures var source := OpenJar(nodes, filename).value;
      var w := PatchedEntries(source, Updated(GetManifest(source).main).1);
      var temp := TempPath(filename);
      var withTemp := nodes[temp := Written(nodes, temp, Archive(w))];
      Patch(nodes, filename, NoFaults)
        == if withTemp[temp].readable then (true, (withTemp - {temp})[filename := File(Archive(w), true)])
           else (false, withTemp)
  {
    var source := OpenJar(nodes, filename).value;
    var w := PatchedEntries(source, Updated(GetManifest(source).main).1);
    var temp := TempPath(filename);
    var withTemp := nodes[temp := Written(nodes, temp, Archive(w))];
    assert IsFile(withTemp, filename);
    if withTemp[temp].readable {
      var created := (withTemp - {filename})[filename := File(Empty, true)];
      assert Replace(withTemp, filename, temp, NoFaults) == (true, (created - {temp})[filename := created[temp]]);
      assert (created - {temp})[filename := created[temp]] == (withTemp - {temp})[filename := File(Archive(w), true)];
    }
  }

  /**
   * Without faults, patching a patched file again gives the same result and changes nothing:
   * the friend list already names the tools module, and the archive, rewritten
   * once more, comes out the same.
   */
  lemma PatchIdempotent(nodes: map<Path, Node>, filename: Path)
    ensures var first := Patch(nodes, filename, NoFaults);
      Patch(first.1, filename, NoFaults) == first
  {
    var temp := TempPath(filename);
    if NeedsRewrite(nodes, filename) && !IsDirectory(nodes, temp) {
      var source := OpenJar(nodes, filename).value;
      var main := GetManifest(source).main;
      var updated := Updated(main).1;
      var w := PatchedEntries(source, updated);
      var withTemp := nodes[temp := Written(nodes, temp, Archive(w))];
      RewriteWithoutFaults(nodes, filename);
      if withTemp[temp].readable {
        PatchedEntriesWellFormed(source, updated);
        UpdateIdempotent(main);
        PatchedArchiveStays((withTemp - {temp})[filename := File(Archive(w), true)], filename, w, updated);
      } else {
        UnreadableCopyStays(nodes, filename, withTemp);
      }
    }
  }

  /** A temporary copy the replacement may not read stays where it is, and patching again rewrites it unchanged. */
  lemma UnreadableCopyStays(nodes: map<Path, Node>, filename: Path, withTemp: map<Path, Node>)
    requires NeedsRewrite(nodes, filename) && !IsDirectory(nodes, TempPath(filename))
    requires var source := OpenJar(nodes, filename).value;
      var w := PatchedEntries(source, Updated(GetManifest(source).main).1);
      withTemp == nodes[TempPath(filename) := Written(nodes, TempPath(filename), Archive(w))]
    requires !withTemp[TempPath(filename)].readable
    ensures Patch(withTemp, filename, NoFaults) == (false, withTemp)
  {
    var temp := TempPath(filename);
    var source := OpenJar(nodes, filename).value;
    var w := PatchedEntries(source, Updated(GetManifest(source).main).1);
    assert OpenJar(withTemp, filename) == OpenJar(nodes, filename);
    RewriteWithoutFaults(withTemp, filename);
    assert withTemp[temp := Written(withTemp, temp, Archive(w))] == withTemp;
  }

  /** An archive holding its own patched form, with no temporary copy beside it, is rewritten into itself. */
  lemma PatchedArchiveStays(nodes: map<Path, Node>, filename: Path, w: seq<Entry>, updated: seq<Attribute>)
    requires TempPath(filename) !in nodes && filename in nodes && nodes[filename] == File(Archive(w), true)
    requires WellFormed(w) && GetManifest(w) == Found(updated) && Updated(updated) == (true, updated)
    requires PatchedEntries(w, updated) == w
    ensures Patch(nodes, filename, NoFaults) == (true, nodes)
  {
    var temp := TempPath(filename);
    assert OpenJar(nodes, filename) == Some(w);
    RewriteWithoutFaults(nodes, filename);
    var withTemp := nodes[temp := Written(nodes, temp, Archive(w))];
    assert (withTemp - {temp})[filename := File(Archive(w), true)] == nodes;
  }

  /**
   * An archive whose friend list already names the tools module is still
   * rewritten: on success the manifest has merely moved to the front, and a
   * failed rename leaves an empty file in the archive's place.
   */
  lemma AlreadyFriendlyIsRewritten(nodes: map<Path, Node>, filename: Path, f: Faults, i: nat)
    requires OpenJar(nodes, filename).Some?
    requires GetManifest(OpenJar(nodes, filename).value).Found?
    requires var main := GetManifest(OpenJar(nodes, filename).value).main;
      FriendSlot(main) == Some(i) && Contains(main[i].value.text, FriendList.Target)
    ensures var source := OpenJar(nodes, filename).value;
      var main := GetManifest(source).main;
      NeedsRewrite(nodes, filename)
      && (Patch(nodes, filename, f).0 ==> Patch(nodes, filename, f).1[filename] == File(Archive(PatchedEntries(source, main)), true))
  {
    var main := GetManifest(OpenJar(nodes, filename).value).main;
    UpdateReportsPatchEvenWhenUnchanged(main, i);
    if Patch(nodes, filename, f).0 {
      PatchSuccessMeansPatched(nodes, filename, f);
    }
  }

  /**
   * A successful fault-free patch followed by a second patch whose rename
   * fails: the archive the first pass patched ends up empty.
   */
  lemma RepatchOnRenameFailureEmpties(nodes: map<Path, Node>, filename: Path)
    requires NeedsRewrite(nodes, filename) && TempPath(filename) !in nodes
    ensures var first := Patch(nodes, filename, NoFaults);
      var second := Patch(first.1, filename, Faults(None, false, false, true));
      first.0 && IsFile(first.1, filename)
      && !second.0 && filename in second.1 && second.1[filename] == File(Empty, true)
  {
    var first := Patch(nodes, filename, NoFaults);
    PatchSucceedsWithoutFaults(nodes, filename);
    PatchSuccessMeansPatched(nodes, filename, NoFaults);
    var source := OpenJar(nodes, filename).value;
    var updated := Updated(GetManifest(source).main).1;
    AlreadyFriendlyLostOnRenameFailure(first.1, filename, FriendSlot(updated).value);
  }

  /** With only the rename failing, an archive that needs no change at all ends up empty. */
  lemma AlreadyFriendlyLostOnRenameFailure(nodes: map<Path, Node>, filename: Path, i: nat)
    requires OpenJar(nodes, filename).Some?
    requires GetManifest(OpenJar(nodes, filename).value).Found?
    requires var main := GetManifest(OpenJar(nodes, filename).value).main;
      FriendSlot(main) == Some(i) && Contains(main[i].value.text, FriendList.Target)
    requires TempPath(filename) !in nodes
    ensures var (ok, after) := Patch(nodes, filename, Faults(None, false, false, true));
      !ok && filename in after && after[filename] == File(Empty, true)
  {
    var source := OpenJar(nodes, filename).value;
    var main := GetManifest(source).main;
    UpdateReportsPatchEvenWhenUnchanged(main, i);
    var temp := TempPath(filename);
    var w := PatchedEntries(source, main);
    var withTemp := nodes[temp := Written(nodes, temp, Archive(w))];
    RenameFailureLosesOriginal(withTemp, filename, temp);
  }
}
