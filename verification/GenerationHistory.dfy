/** Any interleaving of user edits, deletions and generations. */
module GenerationHistory {
  import opened Wrappers
  import opened JsonValues
  import opened NpmManifest
  import opened Ownership

  /** A directory, and what generation last emitted at each path. */
  datatype World = World(disk: Disk, emitted: map<Path, string>)

  datatype Event =
    | Edit(path: Path, contents: string)
    | Delete(path: Path)
    | ForgetOwnership
    | Generate(tree: Tree)

  function Step(tools: Tools, w: World, event: Event): World {
    match event
    case Edit(path, contents) => w.(disk := w.disk.(files := w.disk.files[path := contents]))
    case Delete(path) => w.(disk := w.disk.(files := w.disk.files - {path}))
    case ForgetOwnership => w.(disk := w.disk.(ownership := Missing))
    case Generate(tree) =>
      if Acceptable(tools, tree, w.disk, true) then
        var plan := PlanOf(tools, tree, w.disk, true);
        World(Apply(plan, w.disk), w.emitted + plan.output)
      else w
  }

  function Run(tools: Tools, w: World, events: seq<Event>): World {
    if events == [] then w
    else Step(tools, Run(tools, w, events[..|events| - 1]), events[|events| - 1])
  }

  /** A directory that was never generated into. */
  predicate Initial(w: World) {
    w.disk.ownership.Missing? && w.emitted == map[]
  }

  /** Every record is the digest of what was last emitted at its path. */
  predicate Recorded(tools: Tools, w: World) {
    && ValidOwnership(w.disk)
    && forall path :: path in PreviousRecords(w.disk) ==>
      path in w.emitted && PreviousRecords(w.disk)[path].sha256 == tools.digest(w.emitted[path])
  }

  lemma StepKeepsRecords(tools: Tools, w: World, event: Event)
    requires Recorded(tools, w)
    ensures Recorded(tools, Step(tools, w, event))
  {
    if event.Generate? && Acceptable(tools, event.tree, w.disk, true) {
      var plan := PlanOf(tools, event.tree, w.disk, true);
      var next := Step(tools, w, event);
      OwnershipStaysValid(tools, event.tree, w.disk);
      forall path | path in plan.records
        ensures path in next.emitted && plan.records[path].sha256 == tools.digest(next.emitted[path])
      {
        RecordOfWritten(tools, event.tree, w.disk, path);
      }
    }
  }

  /** A record is new exactly when the path is written; otherwise it is the one before. */
  lemma RecordOfWritten(tools: Tools, tree: Tree, disk: Disk, path: Path)
    requires Acceptable(tools, tree, disk, true)
    ensures var plan := PlanOf(tools, tree, disk, true);
      && (path in plan.output ==> path in plan.records && plan.records[path].sha256 == tools.digest(plan.output[path]))
      && (path in plan.records && path !in plan.output ==>
        path in PreviousRecords(disk) && plan.records[path] == PreviousRecords(disk)[path])
  {
    if path in tree.files {
      assert Decide(tools, tree, disk, true, path).Ok?;
    }
  }

  /** Over every run from a directory without a record, the record is of what generation
      last emitted. */
  lemma {:induction false} RunKeepsRecords(tools: Tools, w: World, events: seq<Event>)
    requires Initial(w)
    ensures Recorded(tools, Run(tools, w, events))
  {
    if events != [] {
      RunKeepsRecords(tools, w, events[..|events| - 1]);
      StepKeepsRecords(tools, Run(tools, w, events[..|events| - 1]), events[|events| - 1]);
    }
  }

  ghost predicate InjectiveDigest(tools: Tools) {
    forall a, b :: tools.digest(a) == tools.digest(b) ==> a == b
  }

  /** Only recorded files that still have the recorded digest are removed. */
  lemma RemovedAsRecorded(tools: Tools, tree: Tree, disk: Disk, path: Path)
    requires Acceptable(tools, tree, disk, true) && path in disk.files
    requires path !in Apply(PlanOf(tools, tree, disk, true), disk).files
    ensures path in PreviousRecords(disk) && tools.digest(disk.files[path]) == PreviousRecords(disk)[path].sha256
  {
    hide Decide, Retains, ValidOwnership, PreviousRecords;
  }

  /** What is written over a different file, if that is neither an npm manifest nor one with
      the recorded digest. */
  lemma OverwrittenOtherwise(tools: Tools, tree: Tree, disk: Disk, path: Path)
    requires path in tree.files && path in disk.files && Decide(tools, tree, disk, true, path).Ok?
    requires Decide(tools, tree, disk, true, path).value.Some? && Decide(tools, tree, disk, true, path).value.value != disk.files[path]
    requires !NpmPath(path)
    requires path in PreviousRecords(disk) ==> tools.digest(disk.files[path]) != PreviousRecords(disk)[path].sha256
    ensures (path == LOCK && path !in PreviousRecords(disk)) || EqualMetadata(tools, path, disk.files[path], Decide(tools, tree, disk, true, path).value.value)
  {
    hide MergeText, Retains, PreviousRecords, ValidPath, NpmPath, EqualMetadata;
  }

  lemma ManifestsAreMerged(tools: Tools, tree: Tree, disk: Disk, path: Path)
    requires path in tree.files && path in disk.files && Decide(tools, tree, disk, true, path).Ok?
    requires Decide(tools, tree, disk, true, path).value.Some? && NpmPath(path)
    ensures MergeText(tools.codec, disk.files[path], tree.files[path]) == Ok(Decide(tools, tree, disk, true, path).value.value)
  {
    hide MergeText, Retains, PreviousRecords, ValidPath, NpmPath, EqualMetadata;
  }

  /** A file that is still there has changed only if it was written. */
  lemma ChangedIsWritten(tools: Tools, tree: Tree, disk: Disk, path: Path)
    requires Acceptable(tools, tree, disk, true) && path in disk.files
    ensures var after := Apply(PlanOf(tools, tree, disk, true), disk);
      path in after.files && after.files[path] != disk.files[path] ==>
        path in tree.files && Decide(tools, tree, disk, true, path) == Ok(Some(after.files[path]))
  {
    hide Decide, Obsolete, Retains, ValidOwnership;
  }

  /** A recorded digest is that of the text emitted last, so a file that has it is that text. */
  lemma RecordedText(tools: Tools, w: World, path: Path)
    requires Recorded(tools, w) && InjectiveDigest(tools) && path in w.disk.files && path in PreviousRecords(w.disk)
    requires tools.digest(w.disk.files[path]) == PreviousRecords(w.disk)[path].sha256
    ensures path in w.emitted && w.disk.files[path] == w.emitted[path]
  {
  }

  /** In whatever way users and generations took turns before: a generation changes or
      removes a file only if it holds exactly what generation last put there. The only
      exceptions are npm manifests, which are merged, a generation lock that is not on
      record, and package metadata that is equal as JSON; no edited file is ever removed. */
  lemma EditedFilesAreSafe(tools: Tools, start: World, events: seq<Event>, tree: Tree, path: Path)
    requires Initial(start) && InjectiveDigest(tools)
    requires path in Run(tools, start, events).disk.files
    ensures var w := Run(tools, start, events);
      var after := Step(tools, w, Generate(tree)).disk;
      var before := w.disk.files[path];
      && (path !in after.files ==> path in w.emitted && before == w.emitted[path])
      && (path in after.files && after.files[path] != before ==>
        || (path in w.emitted && before == w.emitted[path])
        || (NpmPath(path) && path in tree.files && MergeText(tools.codec, before, tree.files[path]) == Ok(after.files[path]))
        || (path == LOCK && path !in PreviousRecords(w.disk))
        || EqualMetadata(tools, path, before, after.files[path]))
  {
    hide Decide, MergeText, Run, Apply, PlanOf, Acceptable, Recorded, PreviousRecords, EqualMetadata, NpmPath, InjectiveDigest;
    var w := Run(tools, start, events);
    RunKeepsRecords(tools, start, events);
    if Acceptable(tools, tree, w.disk, true) {
      var after := Apply(PlanOf(tools, tree, w.disk, true), w.disk);
      ChangedIsWritten(tools, tree, w.disk, path);
      if path !in after.files {
        RemovedAsRecorded(tools, tree, w.disk, path);
        RecordedText(tools, w, path);
      } else if after.files[path] != w.disk.files[path] {
        if NpmPath(path) {
          ManifestsAreMerged(tools, tree, w.disk, path);
        } else if path in PreviousRecords(w.disk) && tools.digest(w.disk.files[path]) == PreviousRecords(w.disk)[path].sha256 {
          RecordedText(tools, w, path);
        } else {
          OverwrittenOtherwise(tools, tree, w.disk, path);
        }
      }
    }
  }

  /** A generation that is permitted does to every path what is promised, and one that is not
      changes nothing, whatever happened before. */
  lemma GenerationArrives(tools: Tools, w: World, tree: Tree)
    ensures var after := Step(tools, w, Generate(tree));
      if Permitted(tools, tree, w.disk, true) then
        forall path :: Arrives(tools, tree, w.disk, after.disk, path) && IsRecorded(tools, tree, w.disk, after.disk, path)
      else after == w
  {
    hide Permitted, Acceptable, Arrives, IsRecorded, PlanOf, Apply;
    PermittedExactly(tools, tree, w.disk, true);
    if Acceptable(tools, tree, w.disk, true) {
      forall path ensures var after := Step(tools, w, Generate(tree)).disk;
        Arrives(tools, tree, w.disk, after, path) && IsRecorded(tools, tree, w.disk, after, path)
      {
        PromisesAreKept(tools, tree, w.disk, path);
      }
    }
  }

  /** Starter files are written once: as long as they exist they keep their bytes, and a
      recorded starter file that is no longer generated is left alone too. */
  lemma StarterFilesAreKept(tools: Tools, tree: Tree, w: World, path: Path)
    requires path in w.disk.files
    requires (path in tree.files && path in tree.preserveExisting)
      || (path !in tree.files && path in PreviousRecords(w.disk) && PreviousRecords(w.disk)[path].createOnce)
    ensures var after := Step(tools, w, Generate(tree)).disk;
      path in after.files && after.files[path] == w.disk.files[path]
  {
    if Acceptable(tools, tree, w.disk, true) && path in tree.files {
      assert Decide(tools, tree, w.disk, true, path).Ok?;
    }
  }

  /** Skipping a package keeps the bytes of its files, edits included, and keeps exactly its
      records, so that the edits are not adopted. */
  lemma RetainedFilesAreKept(tools: Tools, tree: Tree, w: World, path: Path)
    requires Retains(tree, path)
    ensures var after := Step(tools, w, Generate(tree)).disk;
      && (path in after.files <==> path in w.disk.files)
      && (path in w.disk.files ==> after.files[path] == w.disk.files[path])
      && (path in PreviousRecords(after) <==> path in PreviousRecords(w.disk))
      && (path in PreviousRecords(w.disk) ==> PreviousRecords(after)[path] == PreviousRecords(w.disk)[path])
  {
    assert path in tree.files ==> Decide(tools, tree, w.disk, true, path).Err?;
  }

  // ----- npm manifests, as text

  ghost predicate Lossless(codec: Codec) {
    forall value :: codec.parse(codec.print_(value)) == Some(value)
  }

  /** Whatever the user wrote into an npm manifest outside the package's identity is still
      in it after any accepted generation. */
  lemma NpmManifestsKeepUserFields(tools: Tools, tree: Tree, w: World, path: Path, key: string)
    requires Lossless(tools.codec) && NpmPath(path) && path in w.disk.files
    requires tools.codec.parse(w.disk.files[path]).Some? && tools.codec.parse(w.disk.files[path]).value.Object?
    requires key in tools.codec.parse(w.disk.files[path]).value.fields && !IdentityField(key)
    ensures var after := Step(tools, w, Generate(tree)).disk;
      && path in after.files
      && var merged := tools.codec.parse(after.files[path]);
      && merged.Some? && merged.value.Object? && key in merged.value.fields
      && Keeps(tools.codec.parse(w.disk.files[path]).value.fields[key], merged.value.fields[key])
  {
    var user := tools.codec.parse(w.disk.files[path]).value.fields;
    KeepsItself(user[key]);
    if Acceptable(tools, tree, w.disk, true) && path in tree.files {
      assert Decide(tools, tree, w.disk, true, path).Ok?;
      if path !in tree.preserveExisting {
        var required := tools.codec.parse(tree.files[path]).value.fields;
        MergeKeepsUser(user, required, key);
      }
    }
  }

  /** For npm manifests the condition for generation to settle is one on the requirements:
      what they add to the dependency sections must be versions. */
  lemma SettlesExactly(tools: Tools, tree: Tree, disk: Disk, path: Path)
    requires Lossless(tools.codec) && Acceptable(tools, tree, disk, true)
    requires path in tree.files && NpmPath(path) && path !in tree.preserveExisting
    ensures var plan := PlanOf(tools, tree, disk, true);
      var user := tools.codec.parse(if path in disk.files then disk.files[path] else "{}");
      var required := tools.codec.parse(tree.files[path]);
      && path in plan.output
      && user.Some? && user.value.Object? && required.Some? && required.value.Object?
      && (Settles(tools, tree, plan.output, path) <==>
        forall section :: section in SECTIONS ==> AddsVersions(user.value.fields, required.value.fields, section))
  {
    assert Decide(tools, tree, disk, true, path).Ok?;
    var user := tools.codec.parse(if path in disk.files then disk.files[path] else "{}").value.fields;
    var required := tools.codec.parse(tree.files[path]).value.fields;
    MergeIsIdempotentExactly(user, required);
    var merged := Merge(user, required).value;
    assert tools.codec.parse(tools.codec.print_(Object(merged))) == Some(Object(merged));
    if Merge(merged, required).Ok? {
      var twice := Merge(merged, required).value;
      assert tools.codec.parse(tools.codec.print_(Object(twice))) == Some(Object(twice));
    }
  }
}
