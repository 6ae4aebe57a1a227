/** The embedded migration files (migrations/embed.go). */
module Discovery {
  import opened Wrappers
  import opened Text
  import opened Sorting

  datatype Entry = Entry(name: string, isDir: bool)

  /** The embedded file system: the entries of its root and the bytes of its files. */
  datatype EmbedFS = EmbedFS(entries: seq<Entry>, raw: map<string, string>)

  datatype File = File(name: string, content: string, checksum: string, nonTransactional: bool)

  /** The hexadecimal SHA-256 of a file's bytes. */
  type Checksum = string -> string

  const BOM: string := "\U{FEFF}"

  predicate IsUpName(name: string) {
    && HasSuffix(name, ".sql")
    && !Contains(name, ".down.") && !Contains(name, ".draft.") && !Contains(name, ".candidate.")
  }

  function UpFile(name: string, raw: string, checksum: Checksum): File {
    var content := TrimPrefix(raw, BOM);
    File(name, content, checksum(raw),
         Contains(content, "-- non-transactional") || Contains(content, "CREATE INDEX CONCURRENTLY")
         || Contains(content, "REINDEX CONCURRENTLY"))
  }

  predicate IsUpEntry(e: Entry) {
    !e.isDir && IsUpName(e.name)
  }

  /** The up files among the first n entries, in directory order. */
  function UpFiles(fs: EmbedFS, checksum: Checksum, n: nat): Result<seq<File>, string>
    requires n <= |fs.entries|
  {
    if n == 0 then Success([])
    else
      var before :- UpFiles(fs, checksum, n - 1);
      var e := fs.entries[n - 1];
      if !IsUpEntry(e) then Success(before)
      else if e.name !in fs.raw then Failure(e.name)
      else Success(before + [UpFile(e.name, fs.raw[e.name], checksum)])
  }

  predicate ByName(a: File, b: File) {
    Less(a.name, b.name)
  }

  /** DiscoverUpMigrations; a failure names the file that could not be read. */
  function Discovered(fs: EmbedFS, checksum: Checksum): Result<seq<File>, string> {
    var files :- UpFiles(fs, checksum, |fs.entries|);
    Success(Sort(ByName, files))
  }

  lemma {:induction false} FailureStays(fs: EmbedFS, checksum: Checksum, n: nat, m: nat)
    requires n <= m <= |fs.entries| && UpFiles(fs, checksum, n).Failure?
    ensures UpFiles(fs, checksum, m) == UpFiles(fs, checksum, n)
  {
    if n < m { FailureStays(fs, checksum, n, m - 1); }
  }

  method DiscoverUpMigrations(fs: EmbedFS, checksum: Checksum) returns (r: Result<seq<File>, string>)
    ensures r == Discovered(fs, checksum)
  {
    hide UpFile, IsUpName;
    var upFiles: seq<File> := [];
    for i := 0 to |fs.entries|
      invariant UpFiles(fs, checksum, i) == Success(upFiles)
    {
      var entry := fs.entries[i];
      if entry.isDir || !IsUpName(entry.name) {
        continue;
      }
      if entry.name !in fs.raw {
        FailureStays(fs, checksum, i + 1, |fs.entries|);
        return Failure(entry.name);
      }
      upFiles := upFiles + [UpFile(entry.name, fs.raw[entry.name], checksum)];
    }
    var a := new File[|upFiles|](i requires 0 <= i < |upFiles| => upFiles[i]);
    assert a[..] == upFiles;
    SortSlice(a, ByName);
    return Success(a[..]);
  }

  // ----- the list Migrate works through -----

  predicate DistinctEntries(fs: EmbedFS) {
    forall i, j :: 0 <= i < j < |fs.entries| ==> fs.entries[i].name != fs.entries[j].name
  }

  predicate Ascending(files: seq<File>) {
    forall i, j :: 0 <= i < j < |files| ==> Less(files[i].name, files[j].name)
  }

  lemma ByNameIsStrictWeak()
    ensures StrictWeak(ByName)
  {
    forall x, y | ByName(x, y) ensures !ByName(y, x) {
      LessTotal(x.name, y.name);
    }
    forall x, y, z | !ByName(x, y) && !ByName(y, z) ensures !ByName(x, z) {
      LessTotal(x.name, y.name);
      LessTotal(y.name, z.name);
      LessTotal(x.name, z.name);
      if Less(z.name, y.name) && Less(y.name, x.name) { LessTransitive(z.name, y.name, x.name); }
    }
  }

  predicate DistinctNames(files: seq<File>) {
    forall i, j :: 0 <= i < j < |files| ==> files[i].name != files[j].name
  }

  /** The files found are those of the up entries, each once. */
  lemma {:induction false} UpFilesAreEntries(fs: EmbedFS, checksum: Checksum, n: nat)
    requires n <= |fs.entries| && DistinctEntries(fs) && UpFiles(fs, checksum, n).Success?
    ensures
      var files := UpFiles(fs, checksum, n).value;
      && DistinctNames(files)
      && (forall f :: f in files ==> IsFileOf(fs, checksum, n, f))
      && (forall k :: 0 <= k < n && IsUpEntry(fs.entries[k]) ==>
            fs.entries[k].name in fs.raw && UpFile(fs.entries[k].name, fs.raw[fs.entries[k].name], checksum) in files)
  {
    if n > 0 {
      UpFilesAreEntries(fs, checksum, n - 1);
      hide IsUpEntry;
      var before := UpFiles(fs, checksum, n - 1).value;
      var files := UpFiles(fs, checksum, n).value;
      forall f | f in files ensures IsFileOf(fs, checksum, n, f) {
        if f in before {
          var k :| 0 <= k < n - 1 && IsUpEntry(fs.entries[k]) && fs.entries[k].name in fs.raw
                && f == UpFile(fs.entries[k].name, fs.raw[fs.entries[k].name], checksum);
        } else {
          assert f == UpFile(fs.entries[n - 1].name, fs.raw[fs.entries[n - 1].name], checksum);
        }
      }
      assert forall f :: f in before ==> f.name != fs.entries[n - 1].name;
    }
  }

  predicate IsFileOf(fs: EmbedFS, checksum: Checksum, n: nat, f: File)
    requires n <= |fs.entries|
  {
    exists k | 0 <= k < n :: IsUpEntry(fs.entries[k]) && fs.entries[k].name in fs.raw
      && f == UpFile(fs.entries[k].name, fs.raw[fs.entries[k].name], checksum)
  }

  /** DiscoverUpMigrations returns exactly the files of the up entries, in strictly
      ascending order of their names. */
  lemma DiscoveredExactly(fs: EmbedFS, checksum: Checksum)
    requires DistinctEntries(fs) && Discovered(fs, checksum).Success?
    ensures
      var files := Discovered(fs, checksum).value;
      && Ascending(files)
      && (forall f :: f in files <==> IsFileOf(fs, checksum, |fs.entries|, f))
  {
    var found := UpFiles(fs, checksum, |fs.entries|).value;
    var files := Discovered(fs, checksum).value;
    UpFilesAreEntries(fs, checksum, |fs.entries|);
    ByNameIsStrictWeak();
    SortIsSorted(ByName, found);
    assert forall f :: f in files <==> f in multiset(files);
    assert forall f :: f in found <==> f in multiset(found);
    hide UpFile, IsUpEntry;
    SortedDistinct(found);
  }

  lemma SortedDistinct(found: seq<File>)
    requires DistinctNames(found) && IsSorted(ByName, Sort(ByName, found))
    ensures Ascending(Sort(ByName, found))
  {
    var apart := (f: File, g: File) => f.name != g.name;
    SortKeepsPairwise(ByName, found, apart);
    var files := Sort(ByName, found);
    forall i, j | 0 <= i < j < |files| ensures Less(files[i].name, files[j].name) {
      assert apart(files[i], files[j]) && !ByName(files[j], files[i]);
      LessTotal(files[i].name, files[j].name);
    }
  }

  // ----- rollback files -----

  function DownName(upName: string): string {
    TrimSuffix(TrimSuffix(upName, ".up.sql"), ".sql") + ".down.sql"
  }

  /** DiscoverDownFile: the name and the text of the rollback file. */
  function DownFile(fs: EmbedFS, upName: string): Option<string> {
    var name := DownName(upName);
    if name in fs.raw then Some(TrimPrefix(fs.raw[name], BOM)) else None
  }

  /** No rollback file is ever taken for an up migration. */
  lemma DownNameIsNotUp(upName: string)
    ensures !IsUpName(DownName(upName))
  {
    var base := TrimSuffix(TrimSuffix(upName, ".up.sql"), ".sql");
    assert OccursAt(base + ".down.sql", ".down.", |base|);
  }

  lemma TrimSuffixOf(a: string, q: string)
    ensures HasSuffix(a + q, q) && TrimSuffix(a + q, q) == a
  {
  }

  lemma SuffixUnder(a: string, p: string, q: string)
    ensures HasSuffix(a + q, p + q) <==> HasSuffix(a, p)
  {
    var s := a + q;
    if |p| <= |a| {
      assert s[|s| - |p + q|..] == a[|a| - |p|..] + q;
      assert (a[|a| - |p|..] + q)[..|p|] == a[|a| - |p|..] && (p + q)[..|p|] == p;
    }
  }

  /** Both spellings of an up migration share one rollback file. */
  lemma DownNameOf(base: string)
    requires !HasSuffix(base, ".sql") && !HasSuffix(base, ".up")
    ensures DownName(base + ".sql") == base + ".down.sql" && DownName(base + ".up.sql") == base + ".down.sql"
  {
    assert ".up.sql" == ".up" + ".sql";
    TrimSuffixOf(base, ".up.sql");
    TrimSuffixOf(base, ".sql");
    SuffixUnder(base, ".up", ".sql");
    hide HasSuffix;
  }
}
