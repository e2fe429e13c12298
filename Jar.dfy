/**
 * JAR archives as ordered lists of named entries, and the copy of
 * `copyAllJarEntries`: write the updated manifest first, then every other
 * entry, name and bytes, in the source's order, through a chunked buffer.
 * The ZIP container encoding and the manifest's text format are abstracted:
 * the manifest entry carries the attributes its text encodes.
 */
module Jar {
  import opened Wrappers
  import opened JavaStrings
  import opened Manifest

  newtype byte = x: int | 0 <= x < 256

  /** What an entry holds: raw bytes, or (for the manifest entry) the main attributes its text encodes. */
  datatype Payload = Bytes(data: seq<byte>) | ManifestData(main: seq<Attribute>)

  datatype Entry = Entry(name: string, payload: Payload)

  /** The reserved path of the manifest entry. */
  const ManifestName := "META-INF/MANIFEST.MF"

  /** The size of the copy buffer. */
  const BufferSize := 4096 * 2

  /** The copy loop's test: is this entry the manifest (compared ignoring case)? */
  predicate IsManifestName(name: string) {
    EqualsIgnoreCase(name, ManifestName)
  }

  predicate DistinctNames(entries: seq<Entry>) {
    forall i, j :: 0 <= i < j < |entries| ==> entries[i].name != entries[j].name
  }

  /**
   * An archive the model can open: entry names are unique, at most one entry is
   * named as the manifest, and only that entry may carry parsed attributes.
   */
  predicate WellFormed(entries: seq<Entry>) {
    DistinctNames(entries)
    && (forall i, j :: 0 <= i < j < |entries| && IsManifestName(entries[i].name) ==> !IsManifestName(entries[j].name))
    && (forall i :: 0 <= i < |entries| && entries[i].payload.ManifestData? ==> IsManifestName(entries[i].name))
  }

  /** Every entry not named as the manifest holds raw bytes, as in any archive the model can open. */
  predicate BytesOutsideManifest(entries: seq<Entry>) {
    forall e :: e in entries && !IsManifestName(e.name) ==> e.payload.Bytes?
  }

  /** The first entry named as the manifest. */
  function ManifestIndex(entries: seq<Entry>): (r: Option<nat>)
    ensures r.Some? ==> r.value < |entries| && IsManifestName(entries[r.value].name)
    ensures r.Some? ==> forall j :: 0 <= j < r.value ==> !IsManifestName(entries[j].name)
    ensures r.None? ==> forall j :: 0 <= j < |entries| ==> !IsManifestName(entries[j].name)
    decreases |entries|
  {
    if |entries| == 0 then None
    else if IsManifestName(entries[0].name) then Some(0)
    else
      var r := ManifestIndex(entries[1..]);
      if r.None? then None else Some(r.value + 1)
  }

  /** What `JarFile.getManifest()` finds: no manifest, its main attributes, or text it cannot parse. */
  datatype ManifestLookup = NoManifest | Found(main: seq<Attribute>) | Unparsable

  function GetManifest(entries: seq<Entry>): ManifestLookup {
    match ManifestIndex(entries)
    case None => NoManifest
    case Some(i) =>
      if entries[i].payload.ManifestData? then Found(entries[i].payload.main) else Unparsable
  }

  /** Position i holds the first entry named as the manifest. */
  predicate FirstManifestAt(entries: seq<Entry>, i: nat) {
    i < |entries| && IsManifestName(entries[i].name)
    && forall j :: 0 <= j < i ==> !IsManifestName(entries[j].name)
  }

  /**
   * `JarFile.getManifest()`: none exactly when no entry is named as the
   * manifest; otherwise the first such entry decides, and its attributes are
   * the manifest when it holds parsed attributes.
   */
  lemma GetManifestFirst(entries: seq<Entry>)
    ensures var r := GetManifest(entries);
      (r.NoManifest? <==> forall j :: 0 <= j < |entries| ==> !IsManifestName(entries[j].name))
      && (!r.NoManifest? ==>
            exists i: nat :: (FirstManifestAt(entries, i)
              && (r.Found? <==> entries[i].payload.ManifestData?)
              && (r.Found? ==> r.main == entries[i].payload.main)))
  {
    var m := ManifestIndex(entries);
    if m.Some? {
      assert FirstManifestAt(entries, m.value);
    }
  }

  /** The entries the copy loop passes on: all but those named as the manifest, in order. */
  function Kept(entries: seq<Entry>): (r: seq<Entry>)
    ensures |r| <= |entries|
    decreases |entries|
  {
    if |entries| == 0 then []
    else
      var last := entries[|entries| - 1];
      Kept(entries[..|entries| - 1]) + (if IsManifestName(last.name) then [] else [last])
  }

  /** The manifest entry that `new JarOutputStream(out, manifest)` writes first. */
  function ManifestEntry(main: seq<Attribute>): Entry {
    Entry(ManifestName, ManifestData(main))
  }

  /** The complete content of the temporary archive. */
  function PatchedEntries(source: seq<Entry>, main: seq<Attribute>): seq<Entry> {
    [ManifestEntry(main)] + Kept(source)
  }

  /**
   * The outcome of the copy when the write of the entry at position `failAt`
   * (0 being the manifest) raises an I/O error: success and the complete
   * archive, or failure and the entries written before the error.
   */
  function CopyResult(source: seq<Entry>, main: seq<Attribute>, failAt: Option<nat>): (bool, seq<Entry>) {
    var all := PatchedEntries(source, main);
    if failAt.Some? && failAt.value < |all| then (false, all[..failAt.value]) else (true, all)
  }

  /** The filter distributes over concatenation, so it keeps the source's order. */
  lemma {:induction false} KeptAppend(a: seq<Entry>, b: seq<Entry>)
    ensures Kept(a + b) == Kept(a) + Kept(b)
    decreases |b|
  {
    if |b| == 0 {
      assert a + b == a;
    } else {
      var b' := b[..|b| - 1];
      assert (a + b)[..|a + b| - 1] == a + b';
      KeptAppend(a, b');
    }
  }

  /** The kept entries are exactly the source entries not named as the manifest. */
  lemma {:induction false} KeptMembers(entries: seq<Entry>)
    ensures forall e :: e in Kept(entries) <==> e in entries && !IsManifestName(e.name)
    decreases |entries|
  {
    if |entries| > 0 {
      var init := entries[..|entries| - 1];
      KeptMembers(init);
      assert entries == init + [entries[|entries| - 1]];
    }
  }

  /** Filtering never brings two entries of one name together. */
  lemma {:induction false} KeptDistinct(entries: seq<Entry>)
    requires DistinctNames(entries)
    ensures DistinctNames(Kept(entries))
    decreases |entries|
  {
    if |entries| > 0 {
      var init := entries[..|entries| - 1];
      var last := entries[|entries| - 1];
      KeptDistinct(init);
      KeptMembers(init);
      forall e | e in Kept(init) ensures e.name != last.name {
        var k :| 0 <= k < |init| && init[k] == e;
        assert entries[k] == e;
      }
    }
  }

  /** Nothing kept is named as the manifest. */
  lemma KeptHasNoManifest(entries: seq<Entry>)
    ensures forall k :: 0 <= k < |Kept(entries)| ==> !IsManifestName(Kept(entries)[k].name)
  {
    KeptMembers(entries);
    forall k | 0 <= k < |Kept(entries)| ensures !IsManifestName(Kept(entries)[k].name) {
      assert Kept(entries)[k] in Kept(entries);
    }
  }

  /** Filtering twice is filtering once. */
  lemma {:induction false} KeptIdempotent(entries: seq<Entry>)
    ensures Kept(Kept(entries)) == Kept(entries)
    decreases |entries|
  {
    if |entries| > 0 {
      var init := entries[..|entries| - 1];
      var last := entries[|entries| - 1];
      KeptIdempotent(init);
      var tail := if IsManifestName(last.name) then [] else [last];
      KeptAppend(Kept(init), tail);
      if tail != [] {
        assert tail[..0] == [];
      }
    }
  }

  /** The temporary archive's names are unique: the kept ones are, and none of them is the manifest's. */
  lemma PatchedDistinct(source: seq<Entry>, main: seq<Attribute>)
    requires DistinctNames(source)
    ensures DistinctNames(PatchedEntries(source, main))
  {
    var kept := Kept(source);
    var all := PatchedEntries(source, main);
    KeptDistinct(source);
    KeptHasNoManifest(source);
    assert IsManifestName(ManifestName);
    forall i, j | 0 <= i < j < |all| ensures all[i].name != all[j].name {
      assert all[j] == kept[j - 1];
      if i > 0 {
        assert all[i] == kept[i - 1];
      }
    }
  }

  /** The temporary archive's first entry is its only manifest entry. */
  lemma PatchedManifestFirst(source: seq<Entry>, main: seq<Attribute>)
    requires WellFormed(source)
    ensures var all := PatchedEntries(source, main);
      (forall i :: 0 < i < |all| ==> !IsManifestName(all[i].name))
      && (forall i :: 0 <= i < |all| && all[i].payload.ManifestData? ==> IsManifestName(all[i].name))
      && GetManifest(all) == Found(main)
  {
    var kept := Kept(source);
    var all := PatchedEntries(source, main);
    KeptHasNoManifest(source);
    KeptMembers(source);
    forall i | 0 < i < |all| ensures !IsManifestName(all[i].name) && !all[i].payload.ManifestData? {
      assert all[i] == kept[i - 1];
      assert all[i] in source;
    }
    assert IsManifestName(ManifestName);
    assert ManifestIndex(all) == Some(0);
  }

  /**
   * The temporary archive is well formed, its manifest is the updated one, and
   * its other entries are exactly the source's other entries, in order; so
   * copying it again with the same manifest gives it back.
   */
  lemma PatchedEntriesWellFormed(source: seq<Entry>, main: seq<Attribute>)
    requires WellFormed(source)
    ensures WellFormed(PatchedEntries(source, main))
    ensures GetManifest(PatchedEntries(source, main)) == Found(main)
    ensures Kept(PatchedEntries(source, main)) == Kept(source)
    ensures PatchedEntries(PatchedEntries(source, main), main) == PatchedEntries(source, main)
  {
    PatchedDistinct(source, main);
    PatchedManifestFirst(source, main);
    var all := PatchedEntries(source, main);
    assert forall i, j :: 0 <= i < j < |all| && IsManifestName(all[i].name) ==> !IsManifestName(all[j].name);
    assert IsManifestName(ManifestName);
    KeptAppend([ManifestEntry(main)], Kept(source));
    assert Kept([ManifestEntry(main)]) == Kept([]) + [];
    KeptIdempotent(source);
  }

  /** One more source entry extends the filtered prefix by that entry, unless it is the manifest. */
  lemma KeptStep(source: seq<Entry>, i: nat)
    requires i < |source|
    ensures Kept(source[..i + 1]) == Kept(source[..i]) + (if IsManifestName(source[i].name) then [] else [source[i]])
  {
    assert source[..i + 1][..i] == source[..i];
  }

  /** An entry named as the manifest is dropped from the copy. */
  lemma KeptSkip(source: seq<Entry>, i: nat)
    requires i < |source| && IsManifestName(source[i].name)
    ensures Kept(source[..i + 1]) == Kept(source[..i])
  {
    KeptStep(source, i);
  }

  /** Any other entry is appended to the copy. */
  lemma KeptTake(source: seq<Entry>, i: nat)
    requires i < |source| && !IsManifestName(source[i].name)
    ensures Kept(source[..i + 1]) == Kept(source[..i]) + [source[i]]
  {
    KeptStep(source, i);
  }

  /** A write error at the entry kept from source[i] leaves exactly the entries written before it. */
  lemma CopyStopsAt(source: seq<Entry>, main: seq<Attribute>, i: nat)
    requires i < |source| && !IsManifestName(source[i].name)
    ensures var done := [ManifestEntry(main)] + Kept(source[..i]);
      CopyResult(source, main, Some(|done|)) == (false, done)
  {
    KeptStep(source, i);
    KeptAppend(source[..i + 1], source[i + 1..]);
    assert source[..i + 1] + source[i + 1..] == source;
    var done := [ManifestEntry(main)] + Kept(source[..i]);
    var all := PatchedEntries(source, main);
    assert all == done + ([source[i]] + Kept(source[i + 1..]));
    assert all[..|done|] == done;
  }

  /** A copy whose every entry was written before any error leaves the complete archive. */
  lemma CopyCompletes(source: seq<Entry>, main: seq<Attribute>, failAt: Option<nat>, written: seq<Entry>)
    requires written == PatchedEntries(source, main)
    requires failAt.Some? ==> failAt.value >= |written|
    ensures CopyResult(source, main, failAt) == (true, written)
  {
  }

  /**
   * The two outcomes of copying source[i], an entry the filter keeps, after
   * `done` has been written: `done` grows by the entry, or a write error
   * there leaves `done` as what the copy produces.
   */
  lemma CopyStep(source: seq<Entry>, main: seq<Attribute>, i: nat, done: seq<Entry>)
    requires i < |source| && !IsManifestName(source[i].name)
    requires done == [ManifestEntry(main)] + Kept(source[..i])
    ensures done + [source[i]] == [ManifestEntry(main)] + Kept(source[..i + 1])
    ensures CopyResult(source, main, Some(|done|)) == (false, done)
  {
    KeptTake(source, i);
    CopyStopsAt(source, main, i);
  }

  /** The input stream of one entry, read chunk by chunk. */
  class EntryStream {
    const data: seq<byte>
    var pos: nat

    ghost predicate Valid()
      reads this
    {
      pos <= |data|
    }

    constructor (data: seq<byte>)
      ensures Valid() && this.data == data && pos == 0
    {
      this.data := data;
      pos := 0;
    }

    /**
     * `read(buffer)`: -1 at the end of the entry; otherwise some number of bytes,
     * at least one and at most the buffer's length, copied to the buffer's start.
     * How many is up to the stream.
     */
    method Read(buffer: array<byte>) returns (n: int)
      requires Valid() && buffer.Length > 0
      modifies this, buffer
      ensures Valid()
      ensures old(pos) == |data| ==> n == -1 && pos == old(pos)
      ensures old(pos) < |data| ==> 1 <= n <= buffer.Length && pos == old(pos) + n
      ensures old(pos) < |data| ==> buffer[..n] == data[old(pos)..pos]
    {
      if pos == |data| {
        return -1;
      }
      var available := if |data| - pos < buffer.Length then |data| - pos else buffer.Length;
      n :| 1 <= n <= available;
      var start := pos;
      var k := 0;
      while k < n
        invariant 0 <= k <= n && pos == start
        invariant forall j :: 0 <= j < k ==> buffer[j] == data[start + j]
      {
        buffer[k] := data[start + k];
        k := k + 1;
      }
      pos := start + n;
    }
  }

  /**
   * A JarOutputStream over the temporary file: the entries completed so far,
   * and the name and bytes of the one being written. `failAt` is the position
   * of the entry whose write raises an I/O error, if any.
   */
  class JarOutput {
    const failAt: Option<nat>
    var entries: seq<Entry>
    var current: Option<string>
    var data: seq<byte>

    constructor (failAt: Option<nat>)
      ensures this.failAt == failAt && entries == [] && current == None && data == []
    {
      this.failAt := failAt;
      entries, current, data := [], None, [];
    }

    /** The manifest write done by the JarOutputStream constructor. */
    method PutManifest(main: seq<Attribute>) returns (ok: bool)
      requires current.None?
      modifies this
      ensures ok <==> failAt != Some(|old(entries)|)
      ensures entries == if ok then old(entries) + [ManifestEntry(main)] else old(entries)
      ensures current.None?
    {
      ok := failAt != Some(|entries|);
      if ok {
        entries := entries + [ManifestEntry(main)];
      }
    }

    /** `putNextEntry(new JarEntry(name))` */
    method PutNextEntry(name: string) returns (ok: bool)
      requires current.None?
      modifies this
      ensures ok <==> failAt != Some(|entries|)
      ensures entries == old(entries)
      ensures ok ==> current == Some(name) && data == []
      ensures !ok ==> current.None?
    {
      ok := failAt != Some(|entries|);
      if ok {
        current, data := Some(name), [];
      }
    }

    /** `write(buffer, 0, len)` */
    method Write(buffer: array<byte>, len: nat)
      requires current.Some? && len <= buffer.Length
      modifies this
      ensures entries == old(entries) && current == old(current)
      ensures data == old(data) + buffer[..len]
    {
      data := data + buffer[..len];
    }

    /** `closeEntry()` */
    method CloseEntry()
      requires current.Some?
      modifies this
      ensures entries == old(entries) + [Entry(old(current).value, Bytes(old(data)))]
      ensures current.None?
    {
      entries := entries + [Entry(current.value, Bytes(data))];
      current := None;
    }
  }

  /**
   * The inner loop of `copyAllJarEntries`: read a chunk into the buffer, write
   * it out, until the entry's stream reports its end. Whatever chunk sizes the
   * stream picks, and whatever the buffer's length, the entry's bytes arrive
   * whole and in order.
   */
  method CopyEntryData(source: EntryStream, buffer: array<byte>, out: JarOutput)
    requires source.Valid() && source.pos == 0 && buffer.Length > 0 && out.current.Some?
    modifies source, buffer, out
    ensures out.entries == old(out.entries) && out.current == old(out.current)
    ensures out.data == old(out.data) + source.data
  {
    var bytesRead := source.Read(buffer);
    ghost var copied: nat := 0;  // how many of the entry's bytes went out so far
    while bytesRead != -1
      invariant source.Valid() && out.current == old(out.current) && out.entries == old(out.entries)
      invariant copied <= source.pos && out.data == old(out.data) + source.data[..copied]
      invariant bytesRead == -1 ==> copied == source.pos == |source.data|
      invariant bytesRead != -1 ==> 1 <= bytesRead <= buffer.Length && copied + bytesRead == source.pos
      invariant bytesRead != -1 ==> buffer[..bytesRead] == source.data[copied..source.pos]
      decreases |source.data| - copied
    {
      out.Write(buffer, bytesRead);
      SliceSplit(source.data, copied, source.pos);
      copied := source.pos;
      bytesRead := source.Read(buffer);
    }
    assert source.data[..copied] == source.data;
  }

  lemma SliceSplit(s: seq<byte>, i: nat, j: nat)
    requires i <= j <= |s|
    ensures s[..j] == s[..i] + s[i..j]
  {
  }

  /**
   * One pass of the outer loop for an entry that is not the manifest: open an
   * entry of the same name, copy its bytes, close it. On success the entry
   * written is the source entry itself.
   */
  method CopyEntry(entry: Entry, buffer: array<byte>, out: JarOutput) returns (ok: bool)
    requires entry.payload.Bytes? && buffer.Length > 0 && out.current.None?
    modifies buffer, out
    ensures ok <==> out.failAt != Some(|old(out.entries)|)
    ensures out.entries == if ok then old(out.entries) + [entry] else old(out.entries)
    ensures out.current.None?
  {
    ok := out.PutNextEntry(entry.name);
    if !ok {
      return;
    }
    var input := new EntryStream(entry.payload.data);
    CopyEntryData(input, buffer, out);
    assert out.current == Some(entry.name) && out.data == entry.payload.data;
    out.CloseEntry();
    assert Entry(entry.name, Bytes(entry.payload.data)) == entry;
  }

  /**
   * `copyAllJarEntries(jarfile, newFile)`: write the manifest, then every entry
   * not named as the manifest, in order, its bytes copied through one shared
   * buffer. Reports success and the temporary archive's entries, or failure and
   * the entries the file got before the I/O error.
   */
  method CopyAllJarEntries(source: seq<Entry>, main: seq<Attribute>, failAt: Option<nat>)
    returns (ok: bool, written: seq<Entry>)
    requires BytesOutsideManifest(source)
    ensures (ok, written) == CopyResult(source, main, failAt)
  {
    var buffer := new byte[BufferSize];
    var out := new JarOutput(failAt);
    ok := out.PutManifest(main);
    if !ok {
      assert CopyResult(source, main, Some(0)) == (false, []);
      return false, out.entries;
    }
    var i := 0;
    while i < |source|
      invariant 0 <= i <= |source|
      invariant out.entries == [ManifestEntry(main)] + Kept(source[..i])
      invariant out.current.None? && out.failAt == failAt
      invariant failAt.Some? ==> failAt.value >= |out.entries|
    {
      assert source[i] in source;
      var copied := CopyNextEntry(source, main, i, buffer, out);
      if !copied {
        assert failAt == Some(|out.entries|);
        return false, out.entries;
      }
      i := i + 1;
    }
    assert source[..i] == source;
    CopyCompletes(source, main, failAt, out.entries);
    return true, out.entries;
  }

  /**
   * One pass of the loop of `copyAllJarEntries` over source[i]: skip it if it
   * is named as the manifest, copy it otherwise. Either the entries written
   * so far grow to cover source[..i + 1], or the write fails and they are
   * what the copy leaves.
   */
  method CopyNextEntry(source: seq<Entry>, main: seq<Attribute>, i: nat, buffer: array<byte>, out: JarOutput)
    returns (ok: bool)
    requires i < |source| && (!IsManifestName(source[i].name) ==> source[i].payload.Bytes?) && buffer.Length > 0
    requires out.current.None? && out.entries == [ManifestEntry(main)] + Kept(source[..i])
    requires out.failAt.Some? ==> out.failAt.value >= |out.entries|
    modifies buffer, out
    ensures out.current.None?
    ensures ok ==> out.entries == [ManifestEntry(main)] + Kept(source[..i + 1])
    ensures ok ==> (out.failAt.Some? ==> out.failAt.value >= |out.entries|)
    ensures !ok ==> out.failAt == Some(|out.entries|) && CopyResult(source, main, Some(|out.entries|)) == (false, out.entries)
  {
    ghost var done := out.entries;
    if IsManifestName(source[i].name) {
      KeptSkip(source, i);
      ok := true;
    } else {
      CopyStep(source, main, i, done);
      ok := CopyEntry(source[i], buffer, out);
      assert ok ==> |out.entries| == |done| + 1;
    }
  }

}