/** Composing packages by directory into one generated tree. */
module Composition {
  import opened Wrappers
  import opened Ownership
  import opened GeneratedFiles

  /** What a package generated, relative to its own directory. */
  datatype Package = Package(directory: Path, name: string, tree: Tree)

  predicate Overlap(a: Path, b: Path) {
    a <= b || b <= a
  }

  predicate PrefixFree(packages: seq<Package>) {
    forall i, j :: 0 <= i < j < |packages| ==> !Overlap(packages[i].directory, packages[j].directory)
  }

  /** These paths, below the package's directory. */
  function Below(package: Package, paths: set<Path>): (below: set<Path>)
    ensures forall path :: path in below ==> package.directory <= path && path[|package.directory|..] in paths
  {
    var below := set path | path in paths :: package.directory + path;
    assert forall path :: path in paths ==> (package.directory + path)[|package.directory|..] == path;
    below
  }

  function OwnerIn(package: Package, owner: string): string {
    package.name + "::" + owner
  }

  /** The package's tree with every path below its directory, and owners that name it. */
  function Reroot(package: Package): Tree {
    var tree, n := package.tree, |package.directory|;
    Tree(
      map path | path in Below(package, tree.files.Keys) :: tree.files[path[n..]],
      Below(package, tree.preserveExisting),
      map path | path in Below(package, tree.owners.Keys) :: OwnerIn(package, tree.owners[path[n..]]),
      {})
  }

  // ----- what a tree has from a package, without re-rooting

  ghost predicate FileAt(package: Package, path: Path, text: string) {
    exists inner :: inner in package.tree.files && path == package.directory + inner && package.tree.files[inner] == text
  }

  ghost predicate StarterAt(package: Package, path: Path) {
    exists inner :: inner in package.tree.preserveExisting && path == package.directory + inner
  }

  ghost predicate OwnerAt(package: Package, path: Path, owner: string) {
    exists inner :: inner in package.tree.owners && path == package.directory + inner && owner == package.name + "::" + package.tree.owners[inner]
  }

  ghost predicate Has(texts: map<Path, string>, path: Path, text: string) {
    path in texts && texts[path] == text
  }

  lemma RerootExactly(package: Package, path: Path, text: string)
    ensures Has(Reroot(package).files, path, text) <==> FileAt(package, path, text)
    ensures path in Reroot(package).preserveExisting <==> StarterAt(package, path)
    ensures Has(Reroot(package).owners, path, text) <==> OwnerAt(package, path, text)
  {
    assert forall inner: Path :: (package.directory + inner)[|package.directory|..] == inner;
    if package.directory <= path {
      assert path == package.directory + path[|package.directory|..];
    }
  }

  /** The files, starter marks and owners of the packages below their directories, and no others. */
  ghost predicate Collects(packages: seq<Package>, tree: Tree) {
    && (forall path, text :: Has(tree.files, path, text) <==> exists p :: p in packages && FileAt(p, path, text))
    && (forall path :: path in tree.preserveExisting <==> exists p :: p in packages && StarterAt(p, path))
    && (forall path, owner :: Has(tree.owners, path, owner) <==> exists p :: p in packages && OwnerAt(p, path, owner))
  }

  lemma JoinedHas(parts: seq<map<Path, string>>, whole: map<Path, string>, path: Path, text: string)
    requires JoinedMap(parts, whole)
    ensures Has(whole, path, text) <==> exists i :: 0 <= i < |parts| && Has(parts[i], path, text)
  {
    if Has(whole, path, text) {
      var i :| 0 <= i < |parts| && path in parts[i];
      assert Has(parts[i], path, text);
    }
  }

  lemma SomePackage(packages: seq<Package>, path: Path, text: string)
    ensures (exists i :: 0 <= i < |Files(packages)| && Has(Files(packages)[i], path, text)) <==>
      exists p :: p in packages && Has(Reroot(p).files, path, text)
    ensures (exists i :: 0 <= i < |Owners(packages)| && Has(Owners(packages)[i], path, text)) <==>
      exists p :: p in packages && Has(Reroot(p).owners, path, text)
  {
    hide Reroot, Has, Files, Owners;
    PartCount(packages);
    forall i: nat | i < |packages| ensures Files(packages)[i] == Reroot(packages[i]).files && Owners(packages)[i] == Reroot(packages[i]).owners {
      PartOf(packages, i);
    }
  }

  lemma JoinedCollects(packages: seq<Package>, tree: Tree)
    requires Joined(packages, tree)
    ensures Collects(packages, tree)
  {
    hide Reroot, FileAt, StarterAt, OwnerAt, Has, JoinedMap;
    forall path, text
      ensures Has(tree.files, path, text) <==> exists p :: p in packages && FileAt(p, path, text)
      ensures Has(tree.owners, path, text) <==> exists p :: p in packages && OwnerAt(p, path, text)
    {
      JoinedHas(Files(packages), tree.files, path, text);
      JoinedHas(Owners(packages), tree.owners, path, text);
      forall p
        ensures Has(Reroot(p).files, path, text) <==> FileAt(p, path, text)
        ensures Has(Reroot(p).owners, path, text) <==> OwnerAt(p, path, text)
      {
        RerootExactly(p, path, text);
      }
      SomePackage(packages, path, text);
    }
    forall path, p ensures path in Reroot(p).preserveExisting <==> StarterAt(p, path) {
      RerootExactly(p, path, "");
    }
  }

  lemma RerootIsWellFormed(package: Package)
    requires WellFormed(package.tree)
    ensures WellFormed(Reroot(package))
  {
    var rerooted := Reroot(package);
    forall path | path in rerooted.owners ensures path in rerooted.files && !Blank(rerooted.owners[path]) {
      var owner := package.tree.owners[path[|package.directory|..]];
      assert OwnerIn(package, owner)[|package.name|] == ':';
      assert ':' in rerooted.owners[path];
    }
  }

  /** A map that is made of exactly these parts, which agree with it. */
  ghost predicate JoinedMap<V>(parts: seq<map<Path, V>>, whole: map<Path, V>) {
    && (forall path :: path in whole <==> exists i :: 0 <= i < |parts| && path in parts[i])
    && forall i, path :: 0 <= i < |parts| && path in parts[i] ==> path in whole && whole[path] == parts[i][path]
  }

  lemma JoinMap<V>(parts: seq<map<Path, V>>, whole: map<Path, V>, next: map<Path, V>)
    requires JoinedMap(parts, whole)
    requires forall i :: 0 <= i < |parts| ==> parts[i].Keys !! next.Keys
    ensures whole.Keys !! next.Keys
    ensures JoinedMap(parts + [next], whole + next)
  {
    var longer, joined := parts + [next], whole + next;
    forall path | path in whole ensures path !in next && exists i :: 0 <= i < |longer| && path in longer[i] {
      var i :| 0 <= i < |parts| && path in parts[i];
      assert path in longer[i];
    }
    assert longer[|parts|] == next;
    forall i, path | 0 <= i < |longer| && path in longer[i] ensures path in joined && joined[path] == longer[i][path] {
      if i < |parts| {
        assert path in parts[i];
      }
    }
  }

  function Files(packages: seq<Package>): seq<map<Path, string>> {
    seq(|packages|, i requires 0 <= i < |packages| => Reroot(packages[i]).files)
  }

  function Owners(packages: seq<Package>): seq<map<Path, string>> {
    seq(|packages|, i requires 0 <= i < |packages| => Reroot(packages[i]).owners)
  }

  /** The tree made of exactly these packages, each at its place. */
  ghost predicate Joined(packages: seq<Package>, tree: Tree) {
    && JoinedMap(Files(packages), tree.files)
    && JoinedMap(Owners(packages), tree.owners)
    && (forall path :: path in tree.preserveExisting <==> exists p :: p in packages && path in Reroot(p).preserveExisting)
    && tree.retained == {}
  }

  /** Files of packages in directories that do not overlap are different files. */
  lemma SeparateDirectories(a: Package, b: Package)
    requires !Overlap(a.directory, b.directory)
    ensures Reroot(a).files.Keys !! Reroot(b).files.Keys
  {
    forall path | path in Reroot(a).files ensures path !in Reroot(b).files {
    }
  }

  lemma SeparatePackages(a: Package, b: Package)
    requires WellFormed(a.tree) && WellFormed(b.tree) && !Overlap(a.directory, b.directory)
    ensures Reroot(a).files.Keys !! Reroot(b).files.Keys
    ensures Reroot(a).owners.Keys !! Reroot(b).owners.Keys
  {
    SeparateDirectories(a, b);
    RerootIsWellFormed(a);
    RerootIsWellFormed(b);
  }

  lemma OneMore(packages: seq<Package>, next: Package)
    ensures Files(packages + [next]) == Files(packages) + [Reroot(next).files]
    ensures Owners(packages + [next]) == Owners(packages) + [Reroot(next).owners]
  {
    hide Reroot;
  }

  lemma PartOf(packages: seq<Package>, i: nat)
    requires i < |packages|
    ensures Files(packages)[i] == Reroot(packages[i]).files && Owners(packages)[i] == Reroot(packages[i]).owners
  {
    hide Reroot;
  }

  lemma JoinOne(packages: seq<Package>, tree: Tree, next: Package)
    requires Joined(packages, tree) && WellFormed(next.tree)
    requires forall p :: p in packages ==> WellFormed(p.tree) && !Overlap(p.directory, next.directory)
    ensures tree.files.Keys !! Reroot(next).files.Keys
    ensures Joined(packages + [next], Union(tree, Reroot(next)))
  {
    hide Reroot, Overlap, JoinedMap, WellFormed, Files, Owners;
    PartCount(packages);
    forall i: nat | i < |packages|
      ensures Files(packages)[i].Keys !! Reroot(next).files.Keys
      ensures Owners(packages)[i].Keys !! Reroot(next).owners.Keys
    {
      PartOf(packages, i);
      SeparatePackages(packages[i], next);
    }
    JoinMap(Files(packages), tree.files, Reroot(next).files);
    JoinMap(Owners(packages), tree.owners, Reroot(next).owners);
    OneMore(packages, next);
    NothingRetained(next);
    assert forall p :: p in packages + [next] <==> p in packages || p == next;
  }

  lemma PartCount(packages: seq<Package>)
    ensures |Files(packages)| == |Owners(packages)| == |packages|
  {
  }

  lemma NothingRetained(package: Package)
    ensures Reroot(package).retained == {}
  {
  }

  lemma SameJoin<V>(parts: seq<map<Path, V>>, others: seq<map<Path, V>>, whole: map<Path, V>, other: map<Path, V>)
    requires JoinedMap(parts, whole) && JoinedMap(others, other)
    requires forall part :: part in parts <==> part in others
    ensures whole == other
  {
    forall path | path in whole ensures path in other && whole[path] == other[path] {
      var i :| 0 <= i < |parts| && path in parts[i];
      assert parts[i] in others;
      var j :| 0 <= j < |others| && others[j] == parts[i];
      assert path in others[j];
    }
    forall path | path in other ensures path in whole {
      var j :| 0 <= j < |others| && path in others[j];
      assert others[j] in parts;
      var i :| 0 <= i < |parts| && others[j] == parts[i];
      assert path in parts[i];
    }
  }

  /** The composed tree does not depend on the order of the packages. */
  lemma OrderDoesNotMatter(packages: seq<Package>, others: seq<Package>, tree: Tree, other: Tree)
    requires forall p :: p in packages <==> p in others
    requires Joined(packages, tree) && Joined(others, other)
    ensures tree == other
  {
    hide Reroot, JoinedMap;
    SameParts(packages, others);
    SameParts(others, packages);
    SameJoin(Files(packages), Files(others), tree.files, other.files);
    SameJoin(Owners(packages), Owners(others), tree.owners, other.owners);
    assert tree.preserveExisting == other.preserveExisting;
  }

  lemma SameParts(packages: seq<Package>, others: seq<Package>)
    requires forall p :: p in packages ==> p in others
    ensures forall part :: part in Files(packages) ==> part in Files(others)
    ensures forall part :: part in Owners(packages) ==> part in Owners(others)
  {
    hide Reroot;
    forall i | 0 <= i < |packages|
      ensures Reroot(packages[i]).files in Files(others) && Reroot(packages[i]).owners in Owners(others)
    {
      assert packages[i] in others;
      var j :| 0 <= j < |others| && others[j] == packages[i];
      assert Files(others)[j] == Reroot(packages[i]).files && Owners(others)[j] == Reroot(packages[i]).owners;
    }
  }

  datatype ComposeError = Overlapping

  method CheckDirectories(packages: seq<Package>) returns (free: bool)
    ensures free <==> PrefixFree(packages)
  {
    for j := 0 to |packages|
      invariant forall i, k :: 0 <= i < k < j ==> !Overlap(packages[i].directory, packages[k].directory)
    {
      for i := 0 to j
        invariant forall k :: 0 <= k < i ==> !Overlap(packages[k].directory, packages[j].directory)
      {
        if Overlap(packages[i].directory, packages[j].directory) {
          return false;
        }
      }
    }
    free := true;
  }

  /** Composition succeeds exactly when no directory contains another; then no two packages
      ever collide, and the result is the disjoint union of the re-rooted trees. */
  method Compose(packages: seq<Package>) returns (r: Result<Tree, ComposeError>)
    requires forall p :: p in packages ==> WellFormed(p.tree)
    ensures r.Ok? <==> PrefixFree(packages)
    ensures r.Ok? ==> Joined(packages, r.value) && Collects(packages, r.value)
  {
    var free := CheckDirectories(packages);
    if !free {
      return Err(Overlapping);
    }
    var output := new GeneratedTree();
    for i := 0 to |packages|
      invariant output.Valid() && fresh(output)
      invariant Joined(packages[..i], output.View())
    {
      var next := packages[i];
      forall p | p in packages[..i] ensures WellFormed(p.tree) && !Overlap(p.directory, next.directory) {
        var k :| 0 <= k < i && packages[..i][k] == p;
        assert packages[k] == p;
      }
      RerootIsWellFormed(next);
      JoinOne(packages[..i], output.View(), next);
      hide Joined, Reroot, WellFormed;
      var appended := output.Append(Reroot(next));
      assert packages[..i + 1] == packages[..i] + [next];
      assert appended.Ok?;
    }
    assert packages[..|packages|] == packages;
    JoinedCollects(packages, output.View());
    r := Ok(output.View());
  }
}
