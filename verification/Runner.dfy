/** The apply-verify-rollback cycle of cmd/integin-rsi/runner.go, as a function
    of the file tree and of everything that can go wrong around it. */
module Runner {
  import opened Wrappers
  import opened Text
  import opened Hunks
  import opened PatchParser

  // ----- paths -----

  /** An absolute path, as its components. */
  type Path = seq<string>

  /** filepath.Clean: "" and "." are skipped, ".." drops the component before it
      and is dropped itself at the file-system root. */
  function Walk(at: Path, components: seq<string>): Path
    decreases |components|
  {
    if components == [] then at
    else
      var c, rest := components[0], components[1..];
      if c == "" || c == "." then Walk(at, rest)
      else if c == ".." then Walk(if at == [] then [] else at[..|at| - 1], rest)
      else Walk(at + [c], rest)
  }

  predicate IsClean(p: Path) {
    forall i :: 0 <= i < |p| ==> p[i] != "" && p[i] != "." && p[i] != ".."
  }

  /** filepath.Rel between clean absolute paths. */
  function Rel(base: Path, target: Path): Path {
    if base == [] then target
    else if target != [] && base[0] == target[0] then Rel(base[1..], target[1..])
    else seq(|base|, _ => "..") + target
  }

  /** resolveTarget */
  function Resolve(root: Path, rel: string): Option<Path> {
    if rel == "" then None
    else
      var abs := Walk(root, Split(rel, '/'));
      var rp := Rel(root, abs);
      if rp != [] && rp[0] == ".." then None else Some(abs)
  }

  // ----- the file tree and its environment -----

  type Tree = map<Path, string>

  /** A failing os.WriteFile leaves the file alone or with some other content. */
  datatype WriteFault = Refused | Torn(left: string)

  /** Everything a run does not decide itself: which reads fail in the backup and
      in the apply phase, which writes of the apply phase fail, the order in which
      the map of files is visited, and the verdicts of go vet and go test. */
  datatype World = World(
    backupErrors: set<Path>,
    readErrors: set<Path>,
    writeFaults: map<Path, WriteFault>,
    order: seq<string>,
    vet: bool,
    test: bool)

  datatype Request = Request(targets: seq<string>, patch: string, testPackage: string)

  datatype PatchError =
    | Unparsable(parse: ParseError)
    | NotATarget(path: string)
    | BadTarget(rel: string)
    | ReadFailed(rel: string)
    | HunkFailed(rel: string, cause: ApplyError)
    | WriteFailed(rel: string)

  datatype HardError = NoPackage | NoTargets | BadBackupTarget(target: string) | BackupFailed(target: string)

  /** A panic inside applyHunks unwinds through the same deferred rollback; it is
      reported here as a failed patch. */
  datatype Outcome =
    | Aborted(error: HardError)
    | PatchFailed(cause: PatchError)
    | VetFailed
    | TestFailed
    | Succeeded

  // ----- backup and restore -----

  /** What a path held before the run; None if it did not exist. */
  type Backup = map<Path, Option<string>>

  function Held(files: Tree, p: Path): Option<string> {
    if p in files then Some(files[p]) else None
  }

  function BackupFrom(root: Path, files: Tree, w: World, done: Backup, targets: seq<string>): Result<Backup, HardError>
    decreases |targets|
  {
    if targets == [] then Success(done)
    else
      var abs := Resolve(root, targets[0]);
      if abs.None? then Failure(BadBackupTarget(targets[0]))
      else if abs.value in w.backupErrors then Failure(BackupFailed(targets[0]))
      else BackupFrom(root, files, w, done[abs.value := Held(files, abs.value)], targets[1..])
  }

  function Restored(files: Tree, backup: Backup): Tree {
    map p | p in files.Keys + backup.Keys && (p in backup ==> backup[p].Some?)
         :: if p in backup then backup[p].value else files[p]
  }

  // ----- applying a patch -----

  function TargetSet(targets: seq<string>): set<string> {
    set t | t in targets :: NormalizeRel(t)
  }

  /** The file a hunk goes to. */
  function RelOf(h: Hunk): string {
    NormalizeRel(h.path)
  }

  function RelsOf(hs: seq<Hunk>): set<string> {
    set h | h in hs :: RelOf(h)
  }

  function HunksFor(hs: seq<Hunk>, rel: string): seq<Hunk> {
    if hs == [] then []
    else
      var (before, last) := (hs[..|hs| - 1], hs[|hs| - 1]);
      HunksFor(before, rel) + (if RelOf(last) == rel then [last] else [])
  }

  lemma HunksForMore(hs: seq<Hunk>, h: Hunk, rel: string)
    ensures HunksFor(hs + [h], rel) == if RelOf(h) == rel then HunksFor(hs, rel) + [h] else HunksFor(hs, rel)
  {
    assert (hs + [h])[..|hs|] == hs;
    assert HunksFor(hs, rel) + [] == HunksFor(hs, rel);
  }

  /** The first hunk outside the target set, if any. */
  function Stray(targets: set<string>, hs: seq<Hunk>): Option<string> {
    if hs == [] then None
    else if RelOf(hs[0]) !in targets then Some(hs[0].path)
    else Stray(targets, hs[1..])
  }

  /** applyHunks on the file tree. */
  function ApplyOne(root: Path, files: Tree, w: World, rel: string, hs: seq<Hunk>): (Tree, Option<PatchError>) {
    var abs := Resolve(root, rel);
    if abs.None? then (files, Some(BadTarget(rel)))
    else if abs.value in w.readErrors then (files, Some(ReadFailed(rel)))
    else
      var patched := ApplyText(Held(files, abs.value).GetOr(""), hs);
      if patched.NotWritten? then (files, Some(HunkFailed(rel, patched.error)))
      else if abs.value !in w.writeFaults then (files[abs.value := patched.content], None)
      else
        match w.writeFaults[abs.value]
        case Refused => (files, Some(WriteFailed(rel)))
        case Torn(left) => (files[abs.value := left], Some(WriteFailed(rel)))
  }

  /** The files of a patch one after the other, stopping at the first error. */
  function ApplyInOrder(
      root: Path, files: Tree, w: World, hs: seq<Hunk>, order: seq<string>): (Tree, Option<PatchError>)
    decreases |order|
  {
    if order == [] then (files, None)
    else
      var (next, err) := ApplyOne(root, files, w, order[0], HunksFor(hs, order[0]));
      if err.Some? then (next, err) else ApplyInOrder(root, next, w, hs, order[1..])
  }

  function ApplyPatch(
      root: Path, files: Tree, w: World, targets: seq<string>, patch: string): (Tree, Option<PatchError>)
  {
    var hs := Parsed(patch);
    if hs.Failure? then (files, Some(Unparsable(hs.error)))
    else
      var stray := Stray(TargetSet(targets), hs.value);
      if stray.Some? then (files, Some(NotATarget(stray.value)))
      else ApplyInOrder(root, files, w, hs.value, w.order)
  }

  /** ApplyAndVerify */
  function Execute(root: Path, files: Tree, req: Request, w: World): (Tree, Outcome) {
    if req.testPackage == "" then (files, Aborted(NoPackage))
    else if req.targets == [] then (files, Aborted(NoTargets))
    else
      var backup := BackupFrom(root, files, w, map[], req.targets);
      if backup.Failure? then (files, Aborted(backup.error))
      else
        var (applied, err) := ApplyPatch(root, files, w, req.targets, req.patch);
        if err.Some? then (Restored(applied, backup.value), PatchFailed(err.value))
        else if !w.vet then (Restored(applied, backup.value), VetFailed)
        else if !w.test then (Restored(applied, backup.value), TestFailed)
        else (applied, Succeeded)
  }

  /** The map of files is visited once per file, in any order. */
  predicate Enumerates(order: seq<string>, rels: set<string>) {
    && (set rel | rel in order) == rels
    && (forall i, j :: 0 <= i < j < |order| ==> order[i] != order[j])
  }

  predicate ValidWorld(w: World, req: Request) {
    var hs := Parsed(req.patch);
    hs.Success? ==> Enumerates(w.order, RelsOf(hs.value))
  }
}
