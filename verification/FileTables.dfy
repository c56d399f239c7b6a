/** The file and directory tables of the DWARF section builder. */
module FileTables {
  import opened ByteStreams
  import opened LineUnits
  import opened Options
  import opened Sequences

  predicate IsSeparator(b: Byte) { b == 47 || b == 92 }   // '/' and '\\'

  function LastSeparator(path: Bytes, n: nat): (r: Option<nat>)
    requires n <= |path|
    ensures r.None? ==> forall k: nat :: k < n ==> !IsSeparator(path[k])
    ensures r.Some? ==> r.value < n && IsSeparator(path[r.value])
                        && forall k: nat :: r.value < k < n ==> !IsSeparator(path[k])
  {
    if n == 0 then None else if IsSeparator(path[n - 1]) then Some(n - 1) else LastSeparator(path, n - 1)
  }

  function SplitPath(path: Bytes): (Bytes, Bytes) {
    match LastSeparator(path, |path|)
    case None => ([46], path)
    case Some(pos) => (path[..pos], path[pos + 1..])
  }

  /** A path is its directory, one separator and its name, or just its name in the directory ".". */
  lemma SplitPathJoins(path: Bytes)
    ensures var (dir, name) := SplitPath(path);
            && (forall k: nat :: k < |name| ==> !IsSeparator(name[k]))
            && ((path == name && dir == [46]) || (exists s :: IsSeparator(s) && path == dir + [s] + name))
  {
    var r := LastSeparator(path, |path|);
    if r.Some? {
      assert IsSeparator(path[r.value]) && path == path[..r.value] + [path[r.value]] + path[r.value + 1..];
    }
  }

  datatype FileEntry = FileEntry(directory: Bytes, filename: Bytes, dirIndex: nat)

  /** The file with this number holds the two parts of the path. */
  predicate HoldsFile(directories: seq<Bytes>, files: seq<FileEntry>, number: nat, path: Bytes) {
    && 1 <= number <= |files|
    && var f := files[number - 1];
       (f.directory, f.filename) == SplitPath(path) && Placed(directories, f)
  }

  /** The file's entry gives the number of its directory. */
  predicate Placed(directories: seq<Bytes>, f: FileEntry) {
    1 <= f.dirIndex <= |directories| && directories[f.dirIndex - 1] == f.directory
  }

  /** File numbers start at 1, no two paths share one, and a file's entry holds its path's two parts. */
  ghost predicate Consistent(directories: seq<Bytes>, files: seq<FileEntry>, fileIndices: map<Bytes, nat>) {
    && Distinct(directories)
    && (forall i: nat :: i < |files| ==> Placed(directories, files[i]))
    && (forall p :: p in fileIndices ==> HoldsFile(directories, files, fileIndices[p], p))
    && (forall p, q :: p in fileIndices && q in fileIndices && fileIndices[p] == fileIndices[q] ==> p == q)
  }

  lemma DirectoryAdded(directories: seq<Bytes>, files: seq<FileEntry>, fileIndices: map<Bytes, nat>, dir: Bytes)
    requires Consistent(directories, files, fileIndices) && dir !in directories
    ensures Consistent(directories + [dir], files, fileIndices)
  {
    forall i: nat | i < |files| ensures Placed(directories + [dir], files[i]) {
      assert Placed(directories, files[i]);
    }
    forall p | p in fileIndices ensures HoldsFile(directories + [dir], files, fileIndices[p], p) {
      assert HoldsFile(directories, files, fileIndices[p], p);
    }
  }

  lemma FileAdded(directories: seq<Bytes>, files: seq<FileEntry>, fileIndices: map<Bytes, nat>, path: Bytes,
                  entry: FileEntry)
    requires Consistent(directories, files, fileIndices) && path !in fileIndices
    requires (entry.directory, entry.filename) == SplitPath(path)
    requires Placed(directories, entry)
    ensures Consistent(directories, files + [entry], fileIndices[path := |files| + 1])
  {
    var number := |files| + 1;
    forall p | p in fileIndices
      ensures HoldsFile(directories, files + [entry], fileIndices[p], p) && fileIndices[p] != number
    {
      assert HoldsFile(directories, files, fileIndices[p], p);
    }
    assert HoldsFile(directories, files + [entry], number, path);
  }

  // ---- As entries of the unit header ----

  function NameEntry(name: Bytes): Entry {
    [(DW_LNCT_PATH, Text(name))]
  }

  function DirectoryEntries(directories: seq<Bytes>): (entries: seq<Entry>)
    ensures |entries| == |directories| && forall i: nat :: i < |entries| ==> entries[i] == NameEntry(directories[i])
  {
    if directories == [] then [] else [NameEntry(directories[0])] + DirectoryEntries(directories[1..])
  }

  function EntryOf(file: FileEntry): Entry {
    [(DW_LNCT_PATH, Text(file.filename)), (DW_LNCT_DIRECTORY_INDEX, Number(file.dirIndex))]
  }

  function FileEntries(files: seq<FileEntry>): (entries: seq<Entry>)
    ensures |entries| == |files| && forall i: nat :: i < |entries| ==> entries[i] == EntryOf(files[i])
  {
    if files == [] then [] else [EntryOf(files[0])] + FileEntries(files[1..])
  }

  /** No name contains the byte that ends it. */
  predicate Clean(directories: seq<Bytes>, files: seq<FileEntry>) {
    (forall i: nat :: i < |directories| ==> 0 !in directories[i])
    && (forall i: nat :: i < |files| ==> 0 !in files[i].filename)
  }

  lemma SplitPathIsClean(path: Bytes)
    ensures 0 !in path ==> 0 !in SplitPath(path).0 && 0 !in SplitPath(path).1
  {
  }

  lemma {:induction false} DirectoriesConform(directories: seq<Bytes>)
    requires Clean(directories, [])
    ensures AllConform(DirectoryFormats(), DirectoryEntries(directories))
  {
    if directories != [] {
      DirectoriesConform(directories[1..]);
      assert DirectoryEntries(directories)[1..] == DirectoryEntries(directories[1..]);
    }
  }

  lemma {:induction false} FilesConform(files: seq<FileEntry>)
    requires Clean([], files)
    ensures AllConform(FileFormats(), FileEntries(files))
  {
    if files != [] {
      FilesConform(files[1..]);
      assert FileEntries(files)[1..] == FileEntries(files[1..]);
      EntryConforms(files[0]);
    }
  }

  lemma EntryConforms(file: FileEntry)
    requires 0 !in file.filename
    ensures Conforms(FileFormats(), EntryOf(file))
  {
    assert FileFormats()[1..] == [(DW_LNCT_DIRECTORY_INDEX, DW_FORM_UDATA)];
    assert EntryOf(file)[1..] == [(DW_LNCT_DIRECTORY_INDEX, Number(file.dirIndex))];
  }

  // ---- Writing the two tables ----

  method WriteTerminated(out: ByteBuffer, text: Bytes)
    modifies out
    ensures out.data == old(out.data) + FieldBytes(Text(text))
  {
    out.Append(text);
    out.PushBack(0);
  }

  method WriteDirectories(out: ByteBuffer, directories: seq<Bytes>)
    modifies out
    ensures out.data == old(out.data) + EntriesBytes(DirectoryEntries(directories))
  {
    ghost var start := out.data;
    for i := 0 to |directories|
      invariant out.data == start + EntriesBytes(DirectoryEntries(directories[..i]))
    {
      ghost var before := EntriesBytes(DirectoryEntries(directories[..i]));
      WriteTerminated(out, directories[i]);
      DirectoryAppended(directories, i);
      Associates(start, before, FieldBytes(Text(directories[i])));
    }
    assert directories[..|directories|] == directories;
  }

  lemma DirectoryAppended(directories: seq<Bytes>, i: nat)
    requires i < |directories|
    ensures EntriesBytes(DirectoryEntries(directories[..i + 1]))
            == EntriesBytes(DirectoryEntries(directories[..i])) + FieldBytes(Text(directories[i]))
  {
    var e := NameEntry(directories[i]);
    assert DirectoryEntries(directories[..i + 1]) == DirectoryEntries(directories[..i]) + [e];
    EntriesBytesAppend(DirectoryEntries(directories[..i]), e);
    assert EntryBytes(e) == FieldBytes(Text(directories[i])) by { assert e[1..] == []; }
  }

  method WriteFiles(out: ByteBuffer, files: seq<FileEntry>)
    modifies out
    ensures out.data == old(out.data) + EntriesBytes(FileEntries(files))
  {
    ghost var start := out.data;
    for i := 0 to |files|
      invariant out.data == start + EntriesBytes(FileEntries(files[..i]))
    {
      ghost var before := EntriesBytes(FileEntries(files[..i]));
      WriteTerminated(out, files[i].filename);
      WriteULEB128(out, files[i].dirIndex);
      FileAppended(files, i);
      AssociatesThree(start, before, FieldBytes(Text(files[i].filename)), ULEB(files[i].dirIndex));
      Associates(before, FieldBytes(Text(files[i].filename)), ULEB(files[i].dirIndex));
      Associates(start, before, FieldBytes(Text(files[i].filename)) + ULEB(files[i].dirIndex));
    }
    assert files[..|files|] == files;
  }

  lemma FileAppended(files: seq<FileEntry>, i: nat)
    requires i < |files|
    ensures EntriesBytes(FileEntries(files[..i + 1]))
            == EntriesBytes(FileEntries(files[..i])) + (FieldBytes(Text(files[i].filename)) + ULEB(files[i].dirIndex))
  {
    var e := EntryOf(files[i]);
    assert FileEntries(files[..i + 1]) == FileEntries(files[..i]) + [e];
    EntriesBytesAppend(FileEntries(files[..i]), e);
    var second: Entry := e[1..];
    assert second == [(DW_LNCT_DIRECTORY_INDEX, Number(files[i].dirIndex))];
    assert second[1..] == [];
    assert EntryBytes(second) == ULEB(files[i].dirIndex);
    assert EntryBytes(e) == FieldBytes(Text(files[i].filename)) + ULEB(files[i].dirIndex);
  }

  method WriteFormats(out: ByteBuffer, formats: seq<(nat, nat)>)
    requires |formats| < 256
    modifies out
    ensures out.data == old(out.data) + ([|formats|] + FormatBytes(formats))
  {
    ghost var start := out.data;
    out.PushBack(|formats|);
    for i := 0 to |formats|
      invariant out.data + FormatBytes(formats[i..]) == start + ([|formats|] + FormatBytes(formats))
    {
      ghost var before := out.data;
      ghost var tail := FormatBytes(formats[i + 1..]);
      WriteULEB128(out, formats[i].0);
      WriteULEB128(out, formats[i].1);
      assert formats[i..][1..] == formats[i + 1..];
      AssociatesThree(before, ULEB(formats[i].0), ULEB(formats[i].1), tail);
      Associates(ULEB(formats[i].0), ULEB(formats[i].1), tail);
    }
  }

  method WriteDirectoryTable(out: ByteBuffer, directories: seq<Bytes>)
    modifies out
    ensures out.data == old(out.data) + TableBytes(DirectoryFormats(), DirectoryEntries(directories))
  {
    ghost var start := out.data;
    WriteFormats(out, DirectoryFormats());
    WriteULEB128(out, |directories|);
    WriteDirectories(out, directories);
    ghost var formats := [|DirectoryFormats()|] + FormatBytes(DirectoryFormats());
    AssociatesThree(start, formats, ULEB(|directories|), EntriesBytes(DirectoryEntries(directories)));
  }

  method WriteFileTable(out: ByteBuffer, files: seq<FileEntry>)
    modifies out
    ensures out.data == old(out.data) + TableBytes(FileFormats(), FileEntries(files))
  {
    ghost var start := out.data;
    WriteFormats(out, FileFormats());
    WriteULEB128(out, |files|);
    WriteFiles(out, files);
    ghost var formats := [|FileFormats()|] + FormatBytes(FileFormats());
    AssociatesThree(start, formats, ULEB(|files|), EntriesBytes(FileEntries(files)));
  }
}
