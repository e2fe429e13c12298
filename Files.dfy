/**
 * The file system as the patcher sees it through java.io.File and the stream
 * classes: a map from path to node. How the platform answers each request
 * that can fail is an input (Faults), since the model cannot see the disk.
 */
module Files {
  import opened Wrappers
  import opened Jar

  type Path = string

  /** What a regular file holds, as far as opening it as an archive goes. */
  datatype Content =
    | Archive(entries: seq<Entry>)  // a complete archive
    | Partial(entries: seq<Entry>)  // an archive stream cut short by an I/O error
    | Empty                         // a file of length zero

  datatype Node = File(content: Content, readable: bool) | Directory

  /** How the platform answers the requests of one patch that may fail. */
  datatype Faults = Faults(
    writeFailsAt: Option<nat>,  // position of the temporary archive's entry whose write raises an IOException
    deleteFails: bool,          // File.delete() returns false
    createThrows: bool,         // File.createNewFile() raises an IOException
    renameFails: bool)          // File.renameTo(...) returns false

  const NoFaults := Faults(None, false, false, false)

  /** `new File(p).isFile()` */
  predicate IsFile(nodes: map<Path, Node>, p: Path) {
    p in nodes && nodes[p].File?
  }

  /** `new File(p).isDirectory()` */
  predicate IsDirectory(nodes: map<Path, Node>, p: Path) {
    p in nodes && nodes[p].Directory?
  }

  /** `new File(p).canRead()` */
  predicate CanRead(nodes: map<Path, Node>, p: Path) {
    p in nodes && (nodes[p].Directory? || nodes[p].readable)
  }

  /**
   * `new JarFile(p)` and its entries: the archive at p, or None where the
   * constructor raises an IOException (no such file, a directory, no read
   * permission, or bytes that are no complete archive the model can read).
   */
  function OpenJar(nodes: map<Path, Node>, p: Path): Option<seq<Entry>> {
    if IsFile(nodes, p) && nodes[p].readable && nodes[p].content.Archive?
       && WellFormed(nodes[p].content.entries)
    then Some(nodes[p].content.entries)
    else None
  }

  /**
   * The node a FileOutputStream leaves at p holding `content`: a new file is
   * readable, and an existing file keeps its permission when truncated.
   */
  function Written(nodes: map<Path, Node>, p: Path, content: Content): Node {
    File(content, if IsFile(nodes, p) then nodes[p].readable else true)
  }

  /**
   * An archive stored at a path that a reader may open opens again as the
   * same entries when it is well formed; a copy cut short never opens.
   */
  lemma StoredArchiveOpens(nodes: map<Path, Node>, p: Path, entries: seq<Entry>)
    requires IsFile(nodes, p) ==> nodes[p].readable
    ensures OpenJar(nodes[p := Written(nodes, p, Archive(entries))], p)
      == if WellFormed(entries) then Some(entries) else None
    ensures OpenJar(nodes[p := Written(nodes, p, Partial(entries))], p) == None
  {
  }

  class FileSystem {
    var nodes: map<Path, Node>

    constructor (nodes: map<Path, Node>)
      ensures this.nodes == nodes
    {
      this.nodes := nodes;
    }

    /** `new File(p).delete()` */
    method Delete(p: Path, fails: bool) returns (ok: bool)
      modifies this
      ensures ok <==> !fails && p in old(nodes)
      ensures nodes == if ok then old(nodes) - {p} else old(nodes)
    {
      ok := !fails && p in nodes;
      if ok {
        nodes := nodes - {p};
      }
    }

    /** `new File(p).createNewFile()`: None when it raises an IOException. */
    method CreateNewFile(p: Path, throws: bool) returns (created: Option<bool>)
      modifies this
      ensures throws ==> created == None && nodes == old(nodes)
      ensures !throws ==> created == Some(p !in old(nodes))
      ensures !throws ==> nodes == if p in old(nodes) then old(nodes) else old(nodes)[p := File(Empty, true)]
    {
      if throws {
        return None;
      }
      if p in nodes {
        return Some(false);
      }
      nodes := nodes[p := File(Empty, true)];
      return Some(true);
    }

    /** `new File(from).renameTo(new File(to))` */
    method RenameTo(from: Path, to: Path, fails: bool) returns (ok: bool)
      modifies this
      ensures ok <==> !fails && from in old(nodes)
      ensures nodes == if ok then (old(nodes) - {from})[to := old(nodes)[from]] else old(nodes)
    {
      ok := !fails && from in nodes;
      if ok {
        nodes := (nodes - {from})[to := nodes[from]];
      }
    }

    /** A FileOutputStream on p, written to and closed. */
    method Store(p: Path, content: Content)
      requires !IsDirectory(nodes, p)
      modifies this
      ensures nodes == old(nodes)[p := Written(old(nodes), p, content)]
    {
      nodes := nodes[p := Written(nodes, p, content)];
    }
  }
}
