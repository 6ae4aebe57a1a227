/** Which files DiscoverUpMigrations and DiscoverDownFile find, said without their
    code. */
module DiscoveryRules {
  import opened Wrappers
  import opened Text
  import opened Discovery

  predicate ReadsAt(s: string, part: string, i: nat) {
    i + |part| <= |s| && forall j :: 0 <= j < |part| ==> s[i + j] == part[j]
  }

  /** The part occurs somewhere in the text. */
  predicate Holds(s: string, part: string) {
    exists i | 0 <= i <= |s| :: ReadsAt(s, part, i)
  }

  lemma HoldsExactly(s: string, part: string)
    ensures Contains(s, part) <==> Holds(s, part)
  {
    forall i: nat ensures OccursAt(s, part, i) <==> ReadsAt(s, part, i) {
      if i + |part| <= |s| {
        var w := s[i..i + |part|];
        assert forall j :: 0 <= j < |part| ==> w[j] == s[i + j];
      }
    }
  }

  predicate EndsIn(s: string, end: string) {
    |s| >= |end| && s[|s| - |end|..] == end
  }

  /** An entry that is no directory and whose name ends in ".sql", without ".down.",
      ".draft." or ".candidate." anywhere in it. */
  predicate IsUp(e: Entry) {
    && !e.isDir && EndsIn(e.name, ".sql")
    && !Holds(e.name, ".down.") && !Holds(e.name, ".draft.") && !Holds(e.name, ".candidate.")
  }

  /** The text of a file without the byte-order mark it may start with. */
  function WithoutMark(raw: string): string {
    if raw != "" && raw[0] == '\U{FEFF}' then raw[1..] else raw
  }

  /** The file of an entry: its text without the mark, the checksum of its bytes with
      it, and whether one of the three markers is in the text. */
  predicate IsFile(name: string, raw: string, checksum: Checksum, f: File) {
    && f.name == name && f.content == WithoutMark(raw) && f.checksum == checksum(raw)
    && (f.nonTransactional <==>
          || Holds(f.content, "-- non-transactional") || Holds(f.content, "CREATE INDEX CONCURRENTLY")
          || Holds(f.content, "REINDEX CONCURRENTLY"))
  }

  lemma MarkIsCut(raw: string)
    ensures TrimPrefix(raw, BOM) == WithoutMark(raw)
  {
  }

  lemma UpExactly(e: Entry)
    ensures IsUpEntry(e) <==> IsUp(e)
  {
    HoldsExactly(e.name, ".down.");
    HoldsExactly(e.name, ".draft.");
    HoldsExactly(e.name, ".candidate.");
    hide Contains, Holds;
  }

  lemma FileExactly(name: string, raw: string, checksum: Checksum, f: File)
    ensures f == UpFile(name, raw, checksum) <==> IsFile(name, raw, checksum, f)
  {
    var content := WithoutMark(raw);
    MarkIsCut(raw);
    HoldsExactly(content, "-- non-transactional");
    HoldsExactly(content, "CREATE INDEX CONCURRENTLY");
    HoldsExactly(content, "REINDEX CONCURRENTLY");
    hide Contains, Holds, TrimPrefix, WithoutMark;
  }

  /** The file belongs to some entry of the directory. */
  predicate Belongs(fs: EmbedFS, checksum: Checksum, f: File) {
    exists k | 0 <= k < |fs.entries| :: Belongs1(fs, checksum, f, k)
  }

  predicate Belongs1(fs: EmbedFS, checksum: Checksum, f: File, k: nat)
    requires k < |fs.entries|
  {
    var e := fs.entries[k];
    IsUp(e) && e.name in fs.raw && IsFile(e.name, fs.raw[e.name], checksum, f)
  }

  /** DiscoverUpMigrations returns exactly the files of the up entries, in strictly
      ascending order of their names. */
  lemma FoundExactly(fs: EmbedFS, checksum: Checksum)
    requires DistinctEntries(fs) && Discovered(fs, checksum).Success?
    ensures
      var files := Discovered(fs, checksum).value;
      Ascending(files) && forall f :: f in files <==> Belongs(fs, checksum, f)
  {
    DiscoveredExactly(fs, checksum);
    var files := Discovered(fs, checksum).value;
    hide Discovered, Ascending, IsUp, IsUpEntry, UpFile, IsFile;
    forall f ensures IsFileOf(fs, checksum, |fs.entries|, f) <==> Belongs(fs, checksum, f) {
      forall k: nat | k < |fs.entries|
        ensures Belongs1(fs, checksum, f, k)
           <==> (IsUpEntry(fs.entries[k]) && fs.entries[k].name in fs.raw
                 && f == UpFile(fs.entries[k].name, fs.raw[fs.entries[k].name], checksum))
      {
        UpExactly(fs.entries[k]);
        if fs.entries[k].name in fs.raw {
          FileExactly(fs.entries[k].name, fs.raw[fs.entries[k].name], checksum, f);
        }
      }
    }
  }

  predicate Unreadable(fs: EmbedFS, k: nat)
    requires k < |fs.entries|
  {
    IsUp(fs.entries[k]) && fs.entries[k].name !in fs.raw
  }

  lemma {:induction false} UpFilesFail(fs: EmbedFS, checksum: Checksum, n: nat)
    requires n <= |fs.entries|
    ensures UpFiles(fs, checksum, n).Failure? <==> exists k | 0 <= k < n :: Unreadable(fs, k)
    ensures UpFiles(fs, checksum, n).Failure? ==>
      exists k | 0 <= k < n :: Unreadable(fs, k) && fs.entries[k].name == UpFiles(fs, checksum, n).error
                            && forall j :: 0 <= j < k ==> !Unreadable(fs, j)
  {
    hide IsUp, IsUpEntry, UpFile;
    if n > 0 {
      UpFilesFail(fs, checksum, n - 1);
      UpExactly(fs.entries[n - 1]);
      if UpFiles(fs, checksum, n - 1).Success? && Unreadable(fs, n - 1) {
        assert forall j :: 0 <= j < n - 1 ==> !Unreadable(fs, j);
      }
    }
  }

  /** It fails exactly when an up file cannot be read, and names the first one. */
  lemma FailsExactly(fs: EmbedFS, checksum: Checksum)
    ensures Discovered(fs, checksum).Failure? <==> exists k | 0 <= k < |fs.entries| :: Unreadable(fs, k)
    ensures Discovered(fs, checksum).Failure? ==>
      exists k | 0 <= k < |fs.entries| :: Unreadable(fs, k) && fs.entries[k].name == Discovered(fs, checksum).error
                                       && forall j :: 0 <= j < k ==> !Unreadable(fs, j)
  {
    UpFilesFail(fs, checksum, |fs.entries|);
    hide UpFiles, Unreadable;
  }

  /** The rollback file: ".up.sql" or else ".sql" is exchanged for ".down.sql", and its
      text comes without the mark. */
  lemma DownExactly(fs: EmbedFS, upName: string)
    ensures
      var base :=
        if EndsIn(upName, ".up.sql") then upName[..|upName| - 7]
        else if EndsIn(upName, ".sql") then upName[..|upName| - 4] else upName;
      !EndsIn(base, ".sql") ==>
        DownFile(fs, upName)
        == if base + ".down.sql" in fs.raw then Some(WithoutMark(fs.raw[base + ".down.sql"])) else None
  {
    if DownName(upName) in fs.raw { MarkIsCut(fs.raw[DownName(upName)]); }
    hide TrimPrefix;
  }

  // ----- byte order -----

  /** At the first difference the smaller character, or the end, comes first. */
  predicate ComesFirst(a: string, b: string, i: nat) {
    && i <= |a| && i < |b| && a[..i] == b[..i]
    && (i == |a| || a[i] < b[i])
  }

  lemma {:induction false} LessExactly(a: string, b: string)
    ensures Less(a, b) <==> exists i :: ComesFirst(a, b, i)
  {
    if b != "" && (a == "" || a[0] < b[0]) {
      assert ComesFirst(a, b, 0);
    } else if a != "" && b != "" && a[0] == b[0] {
      LessExactly(a[1..], b[1..]);
      hide Less;
      if i: nat :| ComesFirst(a[1..], b[1..], i) {
        OneFurther(a, b, i);
      }
      if i: nat :| ComesFirst(a, b, i) {
        assert i > 0;
        OneBack(a, b, i);
      }
    }
  }

  lemma OneFurther(a: string, b: string, i: nat)
    requires a != "" && b != "" && a[0] == b[0] && ComesFirst(a[1..], b[1..], i)
    ensures ComesFirst(a, b, i + 1)
  {
    assert a[..i + 1] == [a[0]] + a[1..][..i] && b[..i + 1] == [b[0]] + b[1..][..i];
  }

  lemma OneBack(a: string, b: string, i: nat)
    requires a != "" && b != "" && i > 0 && ComesFirst(a, b, i)
    ensures ComesFirst(a[1..], b[1..], i - 1)
  {
    assert a[1..][..i - 1] == a[..i][1..] && b[1..][..i - 1] == b[..i][1..];
  }
}
