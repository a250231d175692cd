/** The generated tree and the directory it is written to, updated in place. */
module GeneratedFiles {
  import opened Wrappers
  import opened JsonValues
  import opened NpmManifest
  import opened Ownership

  /** The white space that is trimmed: the characters of Unicode's White_Space property. */
  predicate WhiteSpace(c: char) {
    || '\t' <= c <= '\r' || c == ' ' || c == '\U{0085}' || c == '\U{00a0}' || c == '\U{1680}' || '\U{2000}' <= c <= '\U{200a}'
    || c == '\U{2028}' || c == '\U{2029}' || c == '\U{202f}' || c == '\U{205f}' || c == '\U{3000}'
  }

  predicate Blank(owner: string) {
    forall c :: c in owner ==> WhiteSpace(c)
  }

  class Directory {
    var files: map<Path, string>
    var ownership: OwnershipFile

    function State(): Disk
      reads this
    {
      Disk(files, ownership)
    }

    constructor (files: map<Path, string>, ownership: OwnershipFile)
      ensures State() == Disk(files, ownership)
    {
      this.files := files;
      this.ownership := ownership;
    }

    method WriteFiles(output: map<Path, string>)
      modifies this`files
      ensures files == old(files) + output
    {
      hide Partly;
      var todo := output.Keys;
      ghost var before := files;
      NothingYet(before, output);
      while todo != {}
        invariant todo <= output.Keys && Partly(before, output, todo, files)
        decreases |todo|
      {
        var path :| path in todo;
        OneMore(before, output, todo, files, path);
        files := files[path := output[path]];
        todo := todo - {path};
      }
      Finished(before, output, files);
    }

    method RemoveFiles(removed: set<Path>)
      modifies this`files
      ensures files == old(files) - removed
    {
      var todo := removed;
      while todo != {}
        invariant todo <= removed
        invariant forall path :: path in files <==> path in old(files) && !(path in removed && path !in todo)
        invariant forall path :: path in files ==> files[path] == old(files)[path]
        decreases |todo|
      {
        var path :| path in todo;
        files := files - {path};
        todo := todo - {path};
      }
      assert files == old(files) - removed;
    }
  }

  /** All but these paths have been written. */
  ghost predicate Partly(before: map<Path, string>, output: map<Path, string>, todo: set<Path>, files: map<Path, string>) {
    && (forall path :: path in files <==> path in before || (path in output && path !in todo))
    && (forall path :: path in files && path in output && path !in todo ==> files[path] == output[path])
    && (forall path :: path in files && path in before && (path !in output || path in todo) ==> files[path] == before[path])
  }

  lemma NothingYet(before: map<Path, string>, output: map<Path, string>)
    ensures Partly(before, output, output.Keys, before)
  {
  }

  lemma OneMore(before: map<Path, string>, output: map<Path, string>, todo: set<Path>, files: map<Path, string>, path: Path)
    requires todo <= output.Keys && path in todo && Partly(before, output, todo, files)
    ensures Partly(before, output, todo - {path}, files[path := output[path]])
  {
  }

  lemma Finished(before: map<Path, string>, output: map<Path, string>, files: map<Path, string>)
    requires Partly(before, output, {}, files)
    ensures files == before + output
  {
  }

  class GeneratedTree {
    var files: map<Path, string>
    var preserveExisting: set<Path>
    var owners: map<Path, string>
    var retained: set<Path>

    function View(): Tree
      reads this
    {
      Tree(files, preserveExisting, owners, retained)
    }

    ghost predicate Valid()
      reads this
    {
      preserveExisting <= files.Keys && owners.Keys <= files.Keys
    }

    constructor ()
      ensures Valid() && View() == Tree(map[], {}, map[], {})
    {
      files, preserveExisting, owners, retained := map[], {}, map[], {};
    }

    method Insert(path: Path, contents: string) returns (r: Result<(), Refusal>)
      requires Valid()
      modifies this
      ensures Valid()
      ensures r.Ok? <==> path !in old(files)
      ensures r.Ok? ==> View() == old(View()).(files := old(files)[path := contents])
      ensures r.Err? ==> View() == old(View())
    {
      if path in files {
        return Err(MultipleGenerators);
      }
      files := files[path := contents];
      r := Ok(());
    }

    /** A starter file, generated only when it does not exist yet. */
    method InsertCustom(path: Path, contents: string) returns (r: Result<(), Refusal>)
      requires Valid()
      modifies this
      ensures Valid()
      ensures r.Ok? <==> path !in old(files)
      ensures r.Ok? ==> View() == old(View()).(
        files := old(files)[path := contents], preserveExisting := old(preserveExisting) + {path})
      ensures r.Err? ==> View() == old(View())
    {
      if path in files {
        return Err(MultipleGenerators);
      }
      preserveExisting := preserveExisting + {path};
      files := files[path := contents];
      r := Ok(());
    }

    /** Replacing never adds a file. */
    method Replace(path: Path, contents: string) returns (r: Result<(), Refusal>)
      requires Valid()
      modifies this
      ensures Valid()
      ensures r.Ok? <==> path in old(files)
      ensures r.Ok? ==> View() == old(View()).(files := old(files)[path := contents])
      ensures r.Err? ==> View() == old(View())
    {
      if path !in files {
        return Err(MissingFile);
      }
      files := files[path := contents];
      r := Ok(());
    }

    method SetOwner(path: Path, owner: string) returns (r: Result<(), Refusal>)
      requires Valid()
      modifies this
      ensures Valid()
      ensures r.Ok? <==> path in old(files) && !Blank(owner)
      ensures r.Ok? ==> View() == old(View()).(owners := old(owners)[path := owner])
      ensures r.Err? ==> View() == old(View())
    {
      if path !in files {
        return Err(MissingFile);
      }
      if Blank(owner) {
        return Err(EmptyOwner);
      }
      owners := owners[path := owner];
      r := Ok(());
    }

    method PreserveOwnedPrefix(prefix: Path) returns (r: Result<(), Refusal>)
      requires Valid()
      modifies this
      ensures Valid()
      ensures r.Ok? <==> ValidPath(prefix) && forall path :: path in old(files) ==> !(prefix <= path)
      ensures r.Ok? ==> View() == old(View()).(retained := old(retained) + {prefix})
      ensures r.Err? ==> View() == old(View())
    {
      if !ValidPath(prefix) {
        return Err(InvalidPath);
      }
      if exists path :: path in files && prefix <= path {
        return Err(RetainedOverlap);
      }
      retained := retained + {prefix};
      r := Ok(());
    }

    method ExtendRetained(prefixes: set<Path>)
      requires Valid()
      modifies this`retained
      ensures Valid()
      ensures View() == old(View()).(retained := old(View()).retained + prefixes)
    {
      retained := retained + prefixes;
    }

    /** One file of another tree, with its starter mark and its owner. */
    method AppendFile(other: Tree, path: Path) returns (r: Result<(), Refusal>)
      requires Valid() && WellFormed(other) && path in other.files
      modifies this
      ensures Valid()
      ensures r.Ok? <==> path !in old(files)
      ensures r.Ok? ==> forall each :: each in files <==> each in old(files) || each == path
      ensures r.Ok? ==> View() == WithFile(old(View()), other, path)
    {
      if path in other.preserveExisting {
        r := InsertCustom(path, other.files[path]);
      } else {
        r := Insert(path, other.files[path]);
      }
      if r.Ok? && path in other.owners {
        r := SetOwner(path, other.owners[path]);
      }
    }

    /** Trees are joined only if no path is in both; then files, starter marks, owners and
        retained prefixes are those of either. */
    method Append(other: Tree) returns (r: Result<(), Refusal>)
      requires Valid() && WellFormed(other)
      modifies this
      ensures r.Ok? ==> Valid()
      ensures r.Ok? <==> old(files).Keys !! other.files.Keys
      ensures r.Ok? ==> View() == Union(old(View()), other)
    {
      hide View, Union, Part, WithFile, WellFormed;
      ghost var start := View();
      ghost var present := files.Keys;
      ExtendRetained(other.retained);
      ghost var before := View();
      var todo := other.files.Keys;
      ghost var done: set<Path> := {};
      PartBegins(before, other);
      while todo != {}
        invariant Valid()
        invariant forall path :: path in other.files <==> path in done || path in todo
        invariant forall path :: path in done ==> path !in todo && path !in present
        invariant forall path :: path in files <==> path in present || path in done
        invariant View() == Union(before, Part(other, done))
        decreases |todo|
      {
        var path :| path in todo;
        var inserted := AppendFile(other, path);
        if inserted.Err? {
          assert path in present;
          return inserted;
        }
        PartGrows(before, other, done, path);
        todo := todo - {path};
        done := done + {path};
      }
      assert done == other.files.Keys;
      PartEnds(start, before, other, done);
      r := Ok(());
    }

    /** The checks on one generated path, in order. */
    method PlanFile(tools: Tools, directory: Directory, previous: Records, enforce: bool, path: Path)
      returns (r: Result<Option<string>, Refusal>)
      requires path in files && previous == PreviousRecords(directory.State())
      ensures r == Decide(tools, View(), directory.State(), enforce, path)
      ensures r.Ok? <==> MayGenerate(tools, View(), directory.State(), enforce, path)
      ensures r.Ok? ==> (r.value.None? <==> path in preserveExisting && path in directory.files)
      ensures r.Ok? && r.value.Some? && !Manifest(path) ==> r.value.value == files[path]
    {
      MayGenerateExactly(tools, View(), directory.State(), enforce, path);
      if MayGenerate(tools, View(), directory.State(), enforce, path) {
        DecidedText(tools, View(), directory.State(), enforce, path);
      }
      hide MergeText, Retains;
      if Retains(View(), path) {
        return Err(RetainedOverlap);
      }
      if !ValidPath(path) {
        return Err(InvalidPath);
      }
      if path == OWNERSHIP {
        return Err(ReservedPath);
      }
      var generated := files[path];
      var existing := Existing(directory.State(), path);
      if path in preserveExisting && existing.Some? {
        return Ok(None);
      }
      var contents := generated;
      if NpmPath(path) {
        var merged := MergeNpmManifest(tools.codec, if existing.Some? then existing.value else "{}", generated);
        if merged.Err? {
          return Err(InvalidManifest(merged.error));
        }
        contents := merged.value;
      } else if existing.Some? {
        if path in previous {
          if enforce && existing.value != contents && tools.digest(existing.value) != previous[path].sha256
             && !EqualMetadata(tools, path, existing.value, contents) {
            return Err(LocallyModified);
          }
        } else if existing.value != generated && path != LOCK {
          return Err(Unowned);
        }
      }
      r := Ok(Some(contents));
    }

    method PlanFiles(tools: Tools, directory: Directory, previous: Records, enforce: bool)
      returns (r: Result<(map<Path, string>, Records), Refusal>)
      requires previous == PreviousRecords(directory.State())
      ensures r.Ok? <==> forall path :: path in files ==> Decide(tools, View(), directory.State(), enforce, path).Ok?
      ensures r.Ok? ==> r.value.0 == OutputOf(tools, View(), directory.State(), enforce)
      ensures r.Ok? ==> forall path :: path in r.value.0 <==> path in files && !(path in preserveExisting && path in directory.files)
      ensures r.Ok? ==> forall path :: path in r.value.0 && !Manifest(path) ==> r.value.0[path] == files[path]
      ensures r.Ok? ==> forall path ::
        RecordOf(tools, View(), directory.State(), enforce, path) == if path in r.value.1 then Some(r.value.1[path]) else None
    {
      hide Decide, View, Retains, OwnerOf, OutputOf, PreviousRecords, RecordOf, Writes, PlannedSoFar;
      ghost var tree, disk := View(), directory.State();
      TreeFiles();
      var output: map<Path, string> := map[];
      var records: Records := map path | path in previous && path !in files && Retains(View(), path) :: previous[path];
      var todo := files.Keys;
      PlanStarts(tools, tree, disk, enforce, records);
      while todo != {}
        invariant todo <= files.Keys
        invariant PlannedSoFar(tools, tree, disk, enforce, todo, output, records)
        decreases |todo|
      {
        var path :| path in todo;
        var decision := PlanFile(tools, directory, previous, enforce, path);
        if decision.Err? {
          return Err(decision.error);
        }
        ghost var outputBefore, recordsBefore := output, records;
        if decision.value.None? {
          if path in previous {
            records := records[path := previous[path]];
          }
        } else {
          var contents := decision.value.value;
          DecidedPath(tools, tree, disk, enforce, path);
          records := records[path := Owned(OwnerOf(View(), path), tools.digest(contents), path in preserveExisting)];
          output := output[path := contents];
        }
        PlanStep(tools, tree, disk, enforce, path, todo, outputBefore, recordsBefore, output, records);
        todo := todo - {path};
      }
      PlanEnds(tools, tree, disk, enforce, output, records);
      OutputTexts(tools, tree, disk, enforce);
      r := Ok((output, records));
    }

    lemma TreeFiles()
      ensures View().files == files && View().preserveExisting == preserveExisting
    {
    }

    method PlanRemovals(tools: Tools, directory: Directory, previous: Records, enforce: bool) returns (r: Result<set<Path>, Refusal>)
      requires previous == PreviousRecords(directory.State())
      ensures r.Ok? <==> forall path :: path in previous && Obsolete(View(), directory.State(), path) && enforce ==>
        tools.digest(directory.files[path]) == previous[path].sha256
      ensures r.Ok? ==> r.value == set path | path in previous && Obsolete(View(), directory.State(), path)
    {
      ghost var tree, disk := View(), directory.State();
      var removed: set<Path> := {};
      var todo := previous.Keys;
      while todo != {}
        invariant todo <= previous.Keys
        invariant forall path :: path in removed <==> path in previous && path !in todo && Obsolete(tree, disk, path)
        invariant forall path :: path in removed && enforce ==>
          tools.digest(directory.files[path]) == previous[path].sha256
        decreases |todo|
      {
        var path :| path in todo;
        if Obsolete(View(), directory.State(), path) {
          if enforce && tools.digest(directory.files[path]) != previous[path].sha256 {
            return Err(LocallyModified);
          }
          removed := removed + {path};
        }
        todo := todo - {path};
      }
      r := Ok(removed);
    }

    method MakePlan(tools: Tools, directory: Directory, enforce: bool) returns (r: Result<Plan, Refusal>)
      ensures r.Ok? <==> Acceptable(tools, View(), directory.State(), enforce)
      ensures r.Ok? ==> r.value == PlanOf(tools, View(), directory.State(), enforce)
      ensures r.Ok? <==> Permitted(tools, View(), directory.State(), enforce)
      ensures r.Ok? ==> forall path :: Reported(tools, View(), directory.State(), ChangesOf(r.value, directory.State()), path)
      ensures r.Ok? ==> forall path :: path in r.value.output && !Manifest(path) ==> path in files && r.value.output[path] == files[path]
    {
      hide PlanOf, ChangesOf, Reported, Permitted, Manifest, Acceptable, OutputOf;
      PermittedExactly(tools, View(), directory.State(), enforce);
      MeansAcceptable(tools, View(), directory.State(), enforce);
      if directory.ownership.Unreadable? {
        return Err(InvalidOwnership);
      }
      if directory.ownership.Present? && directory.ownership.version != 1 {
        return Err(UnsupportedVersion);
      }
      var previous := PreviousRecords(directory.State());
      if exists path :: path in previous && (!ValidPath(path) || path == OWNERSHIP) {
        return Err(InvalidPath);
      }
      var planned := PlanFiles(tools, directory, previous, enforce);
      if planned.Err? {
        return Err(planned.error);
      }
      var (output, records) := planned.value;
      var removed := PlanRemovals(tools, directory, previous, enforce);
      if removed.Err? {
        return Err(removed.error);
      }
      r := Ok(Plan(output, records, removed.value));
      SamePlan(tools, View(), directory.State(), enforce, r.value);
      forall path ensures Reported(tools, View(), directory.State(), ChangesOf(r.value, directory.State()), path) {
        ReportExactly(tools, View(), directory.State(), enforce, path);
      }
    }

    /** Compares the complete output with a directory, without changing it. */
    method Check(tools: Tools, directory: Directory) returns (r: Result<Changes, Refusal>)
      ensures r.Ok? <==> Acceptable(tools, View(), directory.State(), false)
      ensures r.Ok? ==> r.value == ChangesOf(PlanOf(tools, View(), directory.State(), false), directory.State())
      ensures r.Ok? <==> Permitted(tools, View(), directory.State(), false)
      ensures r.Ok? ==> forall path :: Reported(tools, View(), directory.State(), r.value, path)
    {
      hide PlanOf, ChangesOf, Reported, Permitted, Manifest, Acceptable;
      var plan := MakePlan(tools, directory, false);
      if plan.Err? {
        return Err(plan.error);
      }
      r := Ok(ChangesOf(plan.value, directory.State()));
    }

    /** Everything is validated before anything is written: a refusal changes nothing. */
    method WriteTo(tools: Tools, directory: Directory) returns (r: Result<(), Refusal>)
      requires this as object != directory as object
      modifies directory
      ensures r.Ok? <==> Acceptable(tools, View(), old(directory.State()), true)
      ensures directory.State() ==
        if r.Ok? then Apply(PlanOf(tools, View(), old(directory.State()), true), old(directory.State()))
        else old(directory.State())
      ensures r.Ok? <==> Permitted(tools, View(), old(directory.State()), true)
      ensures r.Ok? ==> forall path :: Arrives(tools, View(), old(directory.State()), directory.State(), path)
      ensures r.Ok? ==> forall path :: IsRecorded(tools, View(), old(directory.State()), directory.State(), path)
    {
      hide PlanOf, Arrives, IsRecorded, Reported, ChangesOf, Permitted, Manifest, Acceptable;
      ghost var before := directory.State();
      var plan := MakePlan(tools, directory, true);
      if plan.Err? {
        return Err(plan.error);
      }
      var Plan(output, records, removed) := plan.value;
      directory.WriteFiles(output);
      directory.RemoveFiles(removed);
      directory.ownership := Present(1, records);
      forall path
        ensures Arrives(tools, View(), before, directory.State(), path) && IsRecorded(tools, View(), before, directory.State(), path)
      {
        PromisesAreKept(tools, View(), before, path);
      }
      r := Ok(());
    }
  }

  /** A tree with one more file, taken from another tree. */
  function WithFile(tree: Tree, other: Tree, path: Path): Tree
    requires path in other.files
  {
    Tree(
      tree.files[path := other.files[path]],
      tree.preserveExisting + (if path in other.preserveExisting then {path} else {}),
      if path in other.owners then tree.owners[path := other.owners[path]] else tree.owners,
      tree.retained)
  }

  /** Output and records, when all generated paths but `todo` have been decided. */
  ghost predicate PlannedSoFar(tools: Tools, tree: Tree, disk: Disk, enforce: bool, todo: set<Path>, output: map<Path, string>, records: Records) {
    && (forall path :: path in tree.files && path !in todo ==> Decide(tools, tree, disk, enforce, path).Ok?)
    && (forall path :: path in output <==> path !in todo && Writes(tools, tree, disk, enforce, path))
    && (forall path :: path in output ==> output[path] == Decide(tools, tree, disk, enforce, path).value.value)
    && (forall path :: path in todo ==> path !in records)
    && (forall path :: path !in todo ==> RecordOf(tools, tree, disk, enforce, path) == if path in records then Some(records[path]) else None)
  }

  lemma PlanStarts(tools: Tools, tree: Tree, disk: Disk, enforce: bool, records: Records)
    requires records == map path | path in PreviousRecords(disk) && path !in tree.files && Retains(tree, path) :: PreviousRecords(disk)[path]
    ensures PlannedSoFar(tools, tree, disk, enforce, tree.files.Keys, map[], records)
  {
    hide Decide, Retains, OwnerOf, PreviousRecords;
  }

  lemma PlanStep(tools: Tools, tree: Tree, disk: Disk, enforce: bool, path: Path, todo: set<Path>,
                 output: map<Path, string>, records: Records, nextOutput: map<Path, string>, nextRecords: Records)
    requires PlannedSoFar(tools, tree, disk, enforce, todo, output, records)
    requires path in todo && path in tree.files && Decide(tools, tree, disk, enforce, path).Ok?
    requires
      match Decide(tools, tree, disk, enforce, path).value
      case None =>
        && nextOutput == output
        && nextRecords == if path in PreviousRecords(disk) then records[path := PreviousRecords(disk)[path]] else records
      case Some(contents) =>
        && path != []
        && nextOutput == output[path := contents]
        && nextRecords == records[path := Owned(OwnerOf(tree, path), tools.digest(contents), path in tree.preserveExisting)]
    ensures PlannedSoFar(tools, tree, disk, enforce, todo - {path}, nextOutput, nextRecords)
  {
    hide Decide, Retains, OwnerOf, PreviousRecords;
  }

  /** The parts of acceptance, in the order in which they are checked. */
  lemma MeansAcceptable(tools: Tools, tree: Tree, disk: Disk, enforce: bool)
    ensures Acceptable(tools, tree, disk, enforce) <==>
      && !disk.ownership.Unreadable? && (disk.ownership.Present? ==> disk.ownership.version == 1)
      && (forall path :: path in PreviousRecords(disk) ==> ValidPath(path) && path != OWNERSHIP)
      && (forall path :: path in tree.files ==> Decide(tools, tree, disk, enforce, path).Ok?)
      && forall path :: path in PreviousRecords(disk) && Obsolete(tree, disk, path) && enforce ==>
        tools.digest(disk.files[path]) == PreviousRecords(disk)[path].sha256
  {
    hide Decide;
  }

  lemma OutputTexts(tools: Tools, tree: Tree, disk: Disk, enforce: bool)
    requires forall path :: path in tree.files ==> Decide(tools, tree, disk, enforce, path).Ok?
    ensures var output := OutputOf(tools, tree, disk, enforce);
      && (forall path :: path in output <==> path in tree.files && !Started(tree, disk, path))
      && (forall path :: path in output && !Manifest(path) ==> output[path] == tree.files[path])
  {
    hide Decide, Manifest;
    forall path | path in tree.files
      ensures Decide(tools, tree, disk, enforce, path).value.None? <==> Started(tree, disk, path)
      ensures Decide(tools, tree, disk, enforce, path).value.Some? && !Manifest(path) ==>
        Decide(tools, tree, disk, enforce, path).value.value == tree.files[path]
    {
      DecidedText(tools, tree, disk, enforce, path);
    }
  }

  lemma PlanEnds(tools: Tools, tree: Tree, disk: Disk, enforce: bool, output: map<Path, string>, records: Records)
    requires PlannedSoFar(tools, tree, disk, enforce, {}, output, records)
    ensures forall path :: path in tree.files ==> Decide(tools, tree, disk, enforce, path).Ok?
    ensures output == OutputOf(tools, tree, disk, enforce)
    ensures forall path ::
      RecordOf(tools, tree, disk, enforce, path) == if path in records then Some(records[path]) else None
  {
    hide Decide, RecordOf;
    SameOutput(tools, tree, disk, enforce, output);
  }

  lemma DecidedPath(tools: Tools, tree: Tree, disk: Disk, enforce: bool, path: Path)
    requires path in tree.files && Decide(tools, tree, disk, enforce, path).Ok?
    ensures path != [] && !Retains(tree, path)
  {
  }

  lemma SameOutput(tools: Tools, tree: Tree, disk: Disk, enforce: bool, output: map<Path, string>)
    requires forall path :: path in output <==> Writes(tools, tree, disk, enforce, path)
    requires forall path :: path in output ==>
      Writes(tools, tree, disk, enforce, path) && output[path] == Decide(tools, tree, disk, enforce, path).value.value
    ensures output == OutputOf(tools, tree, disk, enforce)
  {
    hide Decide;
  }

  lemma SamePlan(tools: Tools, tree: Tree, disk: Disk, enforce: bool, plan: Plan)
    requires plan.output == OutputOf(tools, tree, disk, enforce)
    requires forall path ::
      RecordOf(tools, tree, disk, enforce, path) == if path in plan.records then Some(plan.records[path]) else None
    requires plan.removed == set path | path in PreviousRecords(disk) && Obsolete(tree, disk, path)
    ensures plan == PlanOf(tools, tree, disk, enforce)
  {
    hide OutputOf, Obsolete;
    forall path | path in plan.records
      ensures path in PlanOf(tools, tree, disk, enforce).records
    {
      assert RecordOf(tools, tree, disk, enforce, path).Some?;
    }
    assert plan.records == PlanOf(tools, tree, disk, enforce).records;
  }

  ghost predicate WellFormed(tree: Tree) {
    && tree.preserveExisting <= tree.files.Keys
    && tree.owners.Keys <= tree.files.Keys
    && forall path :: path in tree.owners ==> !Blank(tree.owners[path])
  }

  function Union(a: Tree, b: Tree): Tree {
    Tree(a.files + b.files, a.preserveExisting + b.preserveExisting, a.owners + b.owners, a.retained + b.retained)
  }

  /** The part of a tree at these paths. */
  ghost function Part(tree: Tree, paths: set<Path>): Tree {
    Tree(Restrict(tree.files, paths), tree.preserveExisting * paths, Restrict(tree.owners, paths), {})
  }

  ghost function Restrict<V>(entries: map<Path, V>, paths: set<Path>): map<Path, V> {
    map path | path in entries && path in paths :: entries[path]
  }

  lemma RestrictGrows<V>(base: map<Path, V>, entries: map<Path, V>, paths: set<Path>, path: Path)
    requires path !in paths
    ensures base + Restrict(entries, paths + {path}) ==
      if path in entries then (base + Restrict(entries, paths))[path := entries[path]] else base + Restrict(entries, paths)
  {
    if path !in entries {
      assert Restrict(entries, paths + {path}) == Restrict(entries, paths);
    }
  }

  lemma PartBegins(base: Tree, tree: Tree)
    ensures Union(base, Part(tree, {})) == base
  {
    assert Union(base, Part(tree, {})).files == base.files;
  }

  lemma PartGrows(base: Tree, tree: Tree, paths: set<Path>, path: Path)
    requires WellFormed(tree) && path in tree.files && path !in paths
    ensures Union(base, Part(tree, paths + {path})) == WithFile(Union(base, Part(tree, paths)), tree, path)
  {
    hide Restrict;
    RestrictGrows(base.files, tree.files, paths, path);
    RestrictGrows(base.owners, tree.owners, paths, path);
  }

  lemma PartEnds(start: Tree, base: Tree, tree: Tree, paths: set<Path>)
    requires WellFormed(tree) && paths == tree.files.Keys
    requires base == start.(retained := start.retained + tree.retained)
    ensures Union(base, Part(tree, paths)) == Union(start, tree)
  {
    assert Part(tree, paths).files == tree.files && Part(tree, paths).owners == tree.owners;
  }
}
