/** What a generation may write, remove, keep or must refuse, given what is on disk and
    what the ownership record says was generated before. */
module Ownership {
  import opened Wrappers
  import opened JsonValues
  import opened NpmManifest

  /** A relative path, as its components. */
  type Path = seq<string>

  const OWNERSHIP: Path := [".poolster", "ownership.json"]
  const LOCK: Path := [".poolster", "generation.lock.json"]

  predicate ValidPath(path: Path) {
    path != [] && ".." !in path
  }

  predicate NpmPath(path: Path) {
    path != [] && path[|path| - 1] == "package.json" && ".poolster" !in path
  }

  predicate MetadataPath(path: Path) {
    |path| >= 2 && path[|path| - 2..] == [".poolster", "package.json"]
  }

  datatype Owned = Owned(owner: string, sha256: string, createOnce: bool)

  type Records = map<Path, Owned>

  /** The ownership record as it is found on disk. */
  datatype OwnershipFile = Missing | Unreadable | Present(version: int, records: Records)

  /** A directory: its files, apart from the ownership record. */
  datatype Disk = Disk(files: map<Path, string>, ownership: OwnershipFile)

  /** A generated tree, as a value. */
  datatype Tree = Tree(
    files: map<Path, string>,
    preserveExisting: set<Path>,
    owners: map<Path, string>,
    retained: set<Path>)

  datatype Tools = Tools(codec: Codec, digest: string -> string)

  datatype Refusal =
    | InvalidOwnership
    | UnsupportedVersion
    | InvalidPath
    | ReservedPath
    | RetainedOverlap
    | LocallyModified
    | Unowned
    | InvalidManifest(error: MergeError)
    | MultipleGenerators
    | MissingFile
    | EmptyOwner

  predicate Retains(tree: Tree, path: Path) {
    exists prefix :: prefix in tree.retained && prefix <= path
  }

  function Existing(disk: Disk, path: Path): Option<string> {
    if path in disk.files then Some(disk.files[path]) else None
  }

  function PreviousRecords(disk: Disk): Records {
    match disk.ownership
    case Present(_, records) => records
    case _ => map[]
  }

  predicate EqualMetadata(tools: Tools, path: Path, existing: string, generated: string) {
    && MetadataPath(path)
    && tools.codec.parse(existing).Some?
    && tools.codec.parse(existing) == tools.codec.parse(generated)
  }

  /** What is to be written at a generated path: nothing for a starter file that exists. */
  function Decide(tools: Tools, tree: Tree, disk: Disk, enforce: bool, path: Path): Result<Option<string>, Refusal>
    requires path in tree.files
  {
    var generated, existing := tree.files[path], Existing(disk, path);
    if Retains(tree, path) then Err(RetainedOverlap)
    else if !ValidPath(path) then Err(InvalidPath)
    else if path == OWNERSHIP then Err(ReservedPath)
    else if path in tree.preserveExisting && existing.Some? then Ok(None)
    else if NpmPath(path) then
      match MergeText(tools.codec, if existing.Some? then existing.value else "{}", generated)
      case Err(error) => Err(InvalidManifest(error))
      case Ok(merged) => Ok(Some(merged))
    else if existing.None? || existing.value == generated then Ok(Some(generated))
    else if path in PreviousRecords(disk) then
      if enforce && tools.digest(existing.value) != PreviousRecords(disk)[path].sha256
         && !EqualMetadata(tools, path, existing.value, generated) then Err(LocallyModified)
      else Ok(Some(generated))
    else if path == LOCK then Ok(Some(generated))
    else Err(Unowned)
  }

  /** A recorded file that is no longer generated, and that generation may delete. */
  predicate Obsolete(tree: Tree, disk: Disk, path: Path) {
    && path in PreviousRecords(disk)
    && path in disk.files
    && path !in tree.files
    && !Retains(tree, path)
    && !PreviousRecords(disk)[path].createOnce
    && !NpmPath(path)
  }

  predicate ValidOwnership(disk: Disk) {
    && (disk.ownership.Present? ==> disk.ownership.version == 1)
    && !disk.ownership.Unreadable?
    && forall path :: path in PreviousRecords(disk) ==> ValidPath(path) && path != OWNERSHIP
  }

  predicate Acceptable(tools: Tools, tree: Tree, disk: Disk, enforce: bool) {
    && ValidOwnership(disk)
    && (forall path :: path in tree.files ==> Decide(tools, tree, disk, enforce, path).Ok?)
    && (forall path :: path in PreviousRecords(disk) && Obsolete(tree, disk, path) && enforce ==>
      tools.digest(disk.files[path]) == PreviousRecords(disk)[path].sha256)
  }

  function OwnerOf(tree: Tree, path: Path): string
    requires path != []
  {
    if path in tree.owners then tree.owners[path] else "poolster:" + path[0]
  }

  datatype Plan = Plan(output: map<Path, string>, records: Records, removed: set<Path>)

  predicate Writes(tools: Tools, tree: Tree, disk: Disk, enforce: bool, path: Path) {
    path in tree.files && Decide(tools, tree, disk, enforce, path).Ok? && Decide(tools, tree, disk, enforce, path).value.Some?
  }

  function OutputOf(tools: Tools, tree: Tree, disk: Disk, enforce: bool): map<Path, string> {
    map path | path in tree.files && Writes(tools, tree, disk, enforce, path) ::
      Decide(tools, tree, disk, enforce, path).value.value
  }

  /** The record a path has after generation, if any: what is written is recorded anew;
      starter files and retained files keep the record they had. */
  function RecordOf(tools: Tools, tree: Tree, disk: Disk, enforce: bool, path: Path): Option<Owned> {
    if Writes(tools, tree, disk, enforce, path) && path != [] then
      Some(Owned(OwnerOf(tree, path), tools.digest(Decide(tools, tree, disk, enforce, path).value.value),
                 path in tree.preserveExisting))
    else if path in PreviousRecords(disk) && (path in tree.files || Retains(tree, path)) then
      Some(PreviousRecords(disk)[path])
    else None
  }

  function PlanOf(tools: Tools, tree: Tree, disk: Disk, enforce: bool): Plan {
    Plan(
      OutputOf(tools, tree, disk, enforce),
      map path | path in tree.files.Keys + PreviousRecords(disk).Keys && RecordOf(tools, tree, disk, enforce, path).Some? ::
        RecordOf(tools, tree, disk, enforce, path).value,
      (set path | path in PreviousRecords(disk) && Obsolete(tree, disk, path)))
  }

  datatype Changes = Changes(added: set<Path>, modified: set<Path>, removed: set<Path>)

  function ChangesOf(plan: Plan, disk: Disk): Changes {
    Changes(
      (set path | path in plan.output && path !in disk.files),
      (set path | path in plan.output && path in disk.files && disk.files[path] != plan.output[path]),
      plan.removed)
  }

  function Apply(plan: Plan, disk: Disk): Disk {
    Disk((disk.files + plan.output) - plan.removed, Present(1, plan.records))
  }

  /** A file that is not on record is written over only if it is the generation lock: nothing
      in its text, such as a generation notice, makes a difference. */
  lemma UnownedIsRefusedExactly(tools: Tools, tree: Tree, disk: Disk, enforce: bool, path: Path)
    requires path in tree.files && path in disk.files && disk.files[path] != tree.files[path]
    requires path !in PreviousRecords(disk) && path !in tree.preserveExisting && !NpmPath(path)
    requires ValidPath(path) && path != OWNERSHIP && !Retains(tree, path)
    ensures Decide(tools, tree, disk, enforce, path) == if path == LOCK then Ok(Some(tree.files[path])) else Err(Unowned)
  {
    hide Retains, ValidPath, NpmPath, MergeText;
  }

  // ----- one generation

  lemma PreviewDecides(tools: Tools, tree: Tree, disk: Disk, path: Path)
    requires path in tree.files && Decide(tools, tree, disk, true, path).Ok?
    ensures Decide(tools, tree, disk, false, path) == Decide(tools, tree, disk, true, path)
  {
    hide MergeText;
  }

  lemma PreviewRecords(tools: Tools, tree: Tree, disk: Disk, path: Path)
    requires Acceptable(tools, tree, disk, true)
    ensures Writes(tools, tree, disk, false, path) == Writes(tools, tree, disk, true, path)
    ensures RecordOf(tools, tree, disk, false, path) == RecordOf(tools, tree, disk, true, path)
  {
    hide Decide, ValidOwnership, Obsolete;
    if path in tree.files {
      assert Decide(tools, tree, disk, true, path).Ok?;
      PreviewDecides(tools, tree, disk, path);
    }
  }

  /** A preview and an enforced generation agree whenever the latter is not refused. */
  lemma PreviewAgrees(tools: Tools, tree: Tree, disk: Disk)
    requires Acceptable(tools, tree, disk, true)
    ensures Acceptable(tools, tree, disk, false)
    ensures PlanOf(tools, tree, disk, false) == PlanOf(tools, tree, disk, true)
  {
    hide Decide, RecordOf, Obsolete, ValidOwnership;
    forall path | path in tree.files
      ensures Decide(tools, tree, disk, false, path) == Decide(tools, tree, disk, true, path)
    {
      PreviewDecides(tools, tree, disk, path);
    }
    forall path
      ensures RecordOf(tools, tree, disk, false, path) == RecordOf(tools, tree, disk, true, path)
    {
      PreviewRecords(tools, tree, disk, path);
    }
    assert PlanOf(tools, tree, disk, false).output == PlanOf(tools, tree, disk, true).output;
    assert PlanOf(tools, tree, disk, false).records == PlanOf(tools, tree, disk, true).records;
  }

  /** Generation changes exactly the files that the preview reports. */
  lemma ChangesExactlyTheReport(tools: Tools, tree: Tree, disk: Disk, path: Path)
    requires Acceptable(tools, tree, disk, true)
    ensures var report := ChangesOf(PlanOf(tools, tree, disk, false), disk);
      var after := Apply(PlanOf(tools, tree, disk, true), disk);
      && (path in report.added <==> path !in disk.files && path in after.files)
      && (path in report.modified <==> path in disk.files && path in after.files && disk.files[path] != after.files[path])
      && (path in report.removed <==> path in disk.files && path !in after.files)
  {
    PreviewAgrees(tools, tree, disk);
  }

  /** Merging a written npm manifest with its own requirements gives it again. */
  predicate Settles(tools: Tools, tree: Tree, output: map<Path, string>, path: Path)
    requires path in output && path in tree.files
  {
    NpmPath(path) && path !in tree.preserveExisting ==> MergeText(tools.codec, output[path], tree.files[path]) == Ok(output[path])
  }

  /** Nothing is left to do: another generation is accepted, reports no change, and leaves
      the files and the ownership record as they are. */
  predicate Settled(tools: Tools, tree: Tree, disk: Disk) {
    && Acceptable(tools, tree, disk, true)
    && ChangesOf(PlanOf(tools, tree, disk, true), disk) == Changes({}, {}, {})
    && Apply(PlanOf(tools, tree, disk, true), disk) == disk
  }

  /** What a generated path holds afterwards, and what is on record for it. */
  lemma AfterWriting(tools: Tools, tree: Tree, disk: Disk, path: Path)
    requires Acceptable(tools, tree, disk, true) && path in tree.files
    ensures var plan := PlanOf(tools, tree, disk, true);
      var after := Apply(plan, disk);
      && path in after.files && PreviousRecords(after) == plan.records
      && (path in plan.output <==> Decide(tools, tree, disk, true, path).Ok? && Decide(tools, tree, disk, true, path).value.Some?)
      && (path !in plan.output ==> path in disk.files && after.files[path] == disk.files[path] && path in tree.preserveExisting)
      && (path in plan.output ==> plan.output[path] == Decide(tools, tree, disk, true, path).value.value && after.files[path] == plan.output[path])
      && (path in plan.output && path != [] ==> path in plan.records && plan.records[path].sha256 == tools.digest(plan.output[path]))
  {
    hide MergeText, Retains, EqualMetadata, NpmPath, ValidPath, Obsolete, ValidOwnership;
    assert Decide(tools, tree, disk, true, path).Ok?;
    assert !Obsolete(tree, disk, path) by { GeneratedIsKept(tree, disk, path); }
  }

  lemma GeneratedIsKept(tree: Tree, disk: Disk, path: Path)
    requires path in tree.files
    ensures !Obsolete(tree, disk, path)
  {
  }

  lemma WrittenAgain(tools: Tools, tree: Tree, disk: Disk, path: Path)
    requires Acceptable(tools, tree, disk, true) && path in tree.files
    ensures var plan := PlanOf(tools, tree, disk, true);
      var after := Apply(plan, disk);
      && path in after.files
      && (path !in plan.output ==> after.files[path] == disk.files[path] && Decide(tools, tree, after, true, path) == Ok(None))
      && (path in plan.output ==> after.files[path] == plan.output[path])
      && (path in plan.output && path in tree.preserveExisting ==> Decide(tools, tree, after, true, path) == Ok(None))
      && (path in plan.output && path !in tree.preserveExisting ==>
        (Decide(tools, tree, after, true, path) == Ok(Some(plan.output[path])) <==> Settles(tools, tree, plan.output, path)))
  {
    hide MergeText, Apply, PlanOf, Retains, NpmPath, EqualMetadata;
    assert Decide(tools, tree, disk, true, path).Ok?;
    AfterWriting(tools, tree, disk, path);
  }

  lemma RecordedAgain(tools: Tools, tree: Tree, disk: Disk, path: Path)
    requires Acceptable(tools, tree, disk, true)
    requires path in tree.files ==>
      var plan := PlanOf(tools, tree, disk, true);
      path in plan.output ==> Settles(tools, tree, plan.output, path)
    ensures var plan := PlanOf(tools, tree, disk, true);
      var after := Apply(plan, disk);
      && RecordOf(tools, tree, after, true, path) == (if path in plan.records then Some(plan.records[path]) else None)
      && !Obsolete(tree, after, path)
  {
    if path in tree.files {
      WrittenAgain(tools, tree, disk, path);
    }
  }

  lemma AcceptedIsWritten(tools: Tools, tree: Tree, disk: Disk, path: Path)
    requires Acceptable(tools, tree, disk, true) && path in tree.files && path !in tree.preserveExisting
    ensures Writes(tools, tree, disk, true, path)
  {
    assert Decide(tools, tree, disk, true, path).Ok?;
  }

  lemma OwnershipStaysValid(tools: Tools, tree: Tree, disk: Disk)
    requires Acceptable(tools, tree, disk, true)
    ensures ValidOwnership(Apply(PlanOf(tools, tree, disk, true), disk))
  {
    forall path | path in PlanOf(tools, tree, disk, true).records ensures ValidPath(path) && path != OWNERSHIP {
      assert path in tree.files ==> Decide(tools, tree, disk, true, path).Ok?;
    }
  }

  lemma SettledWhen(tools: Tools, tree: Tree, disk: Disk)
    requires Acceptable(tools, tree, disk, true)
    requires var plan := PlanOf(tools, tree, disk, true);
      forall path :: path in plan.output ==> Settles(tools, tree, plan.output, path)
    ensures Settled(tools, tree, Apply(PlanOf(tools, tree, disk, true), disk))
  {
    hide Decide, Obsolete, RecordOf, Settles, Retains, ValidOwnership;
    var plan := PlanOf(tools, tree, disk, true);
    var after := Apply(plan, disk);
    var again := PlanOf(tools, tree, after, true);
    OwnershipStaysValid(tools, tree, disk);
    forall path | path in tree.files
      ensures path in after.files && Decide(tools, tree, after, true, path).Ok?
      ensures path in again.output ==> again.output[path] == after.files[path]
    {
      WrittenAgain(tools, tree, disk, path);
    }
    forall path
      ensures RecordOf(tools, tree, after, true, path) == (if path in plan.records then Some(plan.records[path]) else None)
      ensures !Obsolete(tree, after, path)
    {
      RecordedAgain(tools, tree, disk, path);
    }
    assert again.removed == {};
    SameRecords(plan.records, again.records, tools, tree, after);
    assert (after.files + again.output) - again.removed == after.files;
  }

  lemma SameRecords(records: Records, again: Records, tools: Tools, tree: Tree, disk: Disk)
    requires again == PlanOf(tools, tree, disk, true).records
    requires forall path ::
      RecordOf(tools, tree, disk, true, path) == if path in records then Some(records[path]) else None
    ensures again == records
  {
    forall path | path in records ensures path in again {
      assert RecordOf(tools, tree, disk, true, path).Some?;
    }
  }

  /** A second generation is the identity exactly when every npm manifest that the first one
      wrote is a fixed point of its merge. */
  lemma SettledExactly(tools: Tools, tree: Tree, disk: Disk)
    requires Acceptable(tools, tree, disk, true)
    ensures var plan := PlanOf(tools, tree, disk, true);
      Settled(tools, tree, Apply(plan, disk)) <==>
      forall path :: path in plan.output ==> Settles(tools, tree, plan.output, path)
  {
    hide Decide, RecordOf, Retains, Obsolete, ValidOwnership, MergeText;
    var plan := PlanOf(tools, tree, disk, true);
    var after := Apply(plan, disk);
    var again := PlanOf(tools, tree, after, true);
    if forall path :: path in plan.output ==> Settles(tools, tree, plan.output, path) {
      SettledWhen(tools, tree, disk);
    }
    if Settled(tools, tree, after) {
      forall path | path in plan.output ensures Settles(tools, tree, plan.output, path) {
        WrittenAgain(tools, tree, disk, path);
        if path !in tree.preserveExisting {
          AcceptedIsWritten(tools, tree, after, path);
          assert path in again.output;
          assert path !in ChangesOf(again, after).modified;
        }
      }
    }
  }

  // ----- what generation promises, path by path

  /** An npm manifest that a user may maintain: a package.json outside the tool's own directory. */
  ghost predicate Manifest(path: Path) {
    ".poolster" !in path && exists directory :: path == directory + ["package.json"]
  }

  ghost predicate PackageMetadata(path: Path) {
    exists directory :: path == directory + [".poolster", "package.json"]
  }

  ghost predicate BelowRetained(tree: Tree, path: Path) {
    exists prefix, rest :: prefix in tree.retained && path == prefix + rest
  }

  /** A starter file that is there already. */
  predicate Started(tree: Tree, disk: Disk, path: Path) {
    path in tree.preserveExisting && path in disk.files
  }

  lemma PathKinds(tree: Tree, path: Path)
    ensures NpmPath(path) <==> Manifest(path)
    ensures MetadataPath(path) <==> PackageMetadata(path)
    ensures Retains(tree, path) <==> BelowRetained(tree, path)
  {
    if NpmPath(path) {
      assert path == path[..|path| - 1] + ["package.json"];
    }
    if MetadataPath(path) {
      assert path == path[..|path| - 2] + [".poolster", "package.json"];
    }
    if Retains(tree, path) {
      var prefix :| prefix in tree.retained && prefix <= path;
      assert path == prefix + path[|prefix|..];
    }
  }

  /** A recorded file that is no longer generated and nobody else has a claim to. */
  ghost predicate Abandoned(tree: Tree, disk: Disk, path: Path) {
    && path !in tree.files && path in disk.files && path in PreviousRecords(disk)
    && !PreviousRecords(disk)[path].createOnce && !Manifest(path) && !BelowRetained(tree, path)
  }

  /** The contents of a path after a generation: what is generated arrives, what is abandoned
      goes, and everything else stays as it was. */
  ghost predicate Arrives(tools: Tools, tree: Tree, before: Disk, after: Disk, path: Path) {
    if path in tree.files && !Started(tree, before, path) then
      && path in after.files
      && if Manifest(path) then
           MergeText(tools.codec, if path in before.files then before.files[path] else "{}", tree.files[path]) == Ok(after.files[path])
         else after.files[path] == tree.files[path]
    else if Abandoned(tree, before, path) then path !in after.files
    else (path in after.files <==> path in before.files) && (path in before.files ==> after.files[path] == before.files[path])
  }

  /** The record of a path after a generation. */
  ghost predicate IsRecorded(tools: Tools, tree: Tree, before: Disk, after: Disk, path: Path) {
    && after.ownership.Present? && after.ownership.version == 1
    && var records := after.ownership.records;
      if path in tree.files && !Started(tree, before, path) then
        && path in records && path in after.files && path != []
        && records[path].owner == (if path in tree.owners then tree.owners[path] else "poolster:" + path[0])
        && records[path].sha256 == tools.digest(after.files[path])
        && (records[path].createOnce <==> path in tree.preserveExisting)
      else if path in PreviousRecords(before) && (path in tree.files || BelowRetained(tree, path)) then
        path in records && records[path] == PreviousRecords(before)[path]
      else path !in records
  }

  /** A generated path that may be written. */
  ghost predicate MayGenerate(tools: Tools, tree: Tree, disk: Disk, enforce: bool, path: Path)
    requires path in tree.files
  {
    && !BelowRetained(tree, path)
    && path != [] && ".." !in path && path != [".poolster", "ownership.json"]
    && (|| Started(tree, disk, path)
        || if Manifest(path) then
             MergeText(tools.codec, if path in disk.files then disk.files[path] else "{}", tree.files[path]).Ok?
           else
             || path !in disk.files
             || disk.files[path] == tree.files[path]
             || (path in PreviousRecords(disk) && !enforce)
             || (path in PreviousRecords(disk) && tools.digest(disk.files[path]) == PreviousRecords(disk)[path].sha256)
             || (path in PreviousRecords(disk) && PackageMetadata(path) && SameJson(tools.codec, disk.files[path], tree.files[path]))
             || (path !in PreviousRecords(disk) && path == [".poolster", "generation.lock.json"]))
  }

  ghost predicate SameJson(codec: Codec, a: string, b: string) {
    exists value :: codec.parse(a) == Some(value) && codec.parse(b) == Some(value)
  }

  /** What a generation must find so that it is not refused. */
  ghost predicate Permitted(tools: Tools, tree: Tree, disk: Disk, enforce: bool) {
    && (disk.ownership.Missing? || (disk.ownership.Present? && disk.ownership.version == 1))
    && (forall path :: path in PreviousRecords(disk) ==> path != [] && ".." !in path && path != [".poolster", "ownership.json"])
    && (forall path :: path in tree.files ==> MayGenerate(tools, tree, disk, enforce, path))
    && (enforce ==> forall path :: Abandoned(tree, disk, path) ==> tools.digest(disk.files[path]) == PreviousRecords(disk)[path].sha256)
  }

  lemma MayGenerateExactly(tools: Tools, tree: Tree, disk: Disk, enforce: bool, path: Path)
    requires path in tree.files
    ensures Decide(tools, tree, disk, enforce, path).Ok? <==> MayGenerate(tools, tree, disk, enforce, path)
  {
    hide MergeText, Retains, BelowRetained, Manifest, PackageMetadata, NpmPath, MetadataPath, PreviousRecords;
    PathKinds(tree, path);
    if path in disk.files && SameJson(tools.codec, disk.files[path], tree.files[path]) {
      var value :| tools.codec.parse(disk.files[path]) == Some(value) && tools.codec.parse(tree.files[path]) == Some(value);
    }
  }

  lemma AbandonedExactly(tree: Tree, disk: Disk, path: Path)
    ensures Obsolete(tree, disk, path) <==> Abandoned(tree, disk, path)
  {
    hide Retains, BelowRetained, Manifest, NpmPath;
    PathKinds(tree, path);
  }

  /** A generation is accepted exactly when it is permitted. */
  lemma PermittedExactly(tools: Tools, tree: Tree, disk: Disk, enforce: bool)
    ensures Acceptable(tools, tree, disk, enforce) <==> Permitted(tools, tree, disk, enforce)
  {
    hide Decide, MayGenerate, Obsolete, Abandoned;
    forall path | path in tree.files
      ensures Decide(tools, tree, disk, enforce, path).Ok? <==> MayGenerate(tools, tree, disk, enforce, path)
    {
      MayGenerateExactly(tools, tree, disk, enforce, path);
    }
    forall path ensures Obsolete(tree, disk, path) <==> Abandoned(tree, disk, path) {
      AbandonedExactly(tree, disk, path);
    }
    AbandonedIsRecorded(tree, disk);
  }

  lemma AbandonedIsRecorded(tree: Tree, disk: Disk)
    ensures forall path :: Abandoned(tree, disk, path) ==> path in disk.files && path in PreviousRecords(disk)
  {
  }

  /** What is decided for a generated path. */
  lemma DecidedText(tools: Tools, tree: Tree, disk: Disk, enforce: bool, path: Path)
    requires path in tree.files && Decide(tools, tree, disk, enforce, path).Ok?
    ensures var decided := Decide(tools, tree, disk, enforce, path).value;
      && path != []
      && (decided.None? <==> Started(tree, disk, path))
      && (decided.Some? && Manifest(path) ==>
        MergeText(tools.codec, if path in disk.files then disk.files[path] else "{}", tree.files[path]) == Ok(decided.value))
      && (decided.Some? && !Manifest(path) ==> decided.value == tree.files[path])
  {
    hide MergeText, Retains, Manifest, NpmPath, MetadataPath, PreviousRecords;
    PathKinds(tree, path);
  }

  /** An accepted generation does to every path what was promised. */
  lemma PromisesAreKept(tools: Tools, tree: Tree, disk: Disk, path: Path)
    requires Acceptable(tools, tree, disk, true)
    ensures var after := Apply(PlanOf(tools, tree, disk, true), disk);
      Arrives(tools, tree, disk, after, path) && IsRecorded(tools, tree, disk, after, path)
  {
    hide Decide, MergeText, Retains, BelowRetained, Manifest, NpmPath, ValidOwnership, Obsolete, Abandoned;
    PathKinds(tree, path);
    AbandonedExactly(tree, disk, path);
    NotAbandoned(tree, disk, path);
    if path in tree.files {
      assert Decide(tools, tree, disk, true, path).Ok?;
      DecidedText(tools, tree, disk, true, path);
    }
  }

  lemma NotAbandoned(tree: Tree, disk: Disk, path: Path)
    ensures Abandoned(tree, disk, path) ==> path !in tree.files && path in PreviousRecords(disk) && !BelowRetained(tree, path)
  {
  }

  /** What a report says of a path: added when it is generated and not there, modified when
      it is there with other contents, removed when it is abandoned. */
  ghost predicate Reported(tools: Tools, tree: Tree, disk: Disk, report: Changes, path: Path) {
    && (path in report.added <==> path in tree.files && path !in disk.files)
    && (path in report.modified <==>
      && path in tree.files && path in disk.files && !Started(tree, disk, path)
      && if Manifest(path) then MergeText(tools.codec, disk.files[path], tree.files[path]) != Ok(disk.files[path])
         else disk.files[path] != tree.files[path])
    && (path in report.removed <==> Abandoned(tree, disk, path))
  }

  lemma ReportExactly(tools: Tools, tree: Tree, disk: Disk, enforce: bool, path: Path)
    requires Acceptable(tools, tree, disk, enforce)
    ensures Reported(tools, tree, disk, ChangesOf(PlanOf(tools, tree, disk, enforce), disk), path)
  {
    hide Decide, MergeText, Retains, BelowRetained, Manifest, NpmPath, ValidOwnership, Obsolete, Abandoned;
    AbandonedExactly(tree, disk, path);
    NotAbandoned(tree, disk, path);
    if path in tree.files {
      assert Decide(tools, tree, disk, enforce, path).Ok?;
      DecidedText(tools, tree, disk, enforce, path);
    }
  }
}
