/** Merging a generated package.json into the one a user maintains. */
module NpmManifest {
  import opened Wrappers
  import opened JsonValues

  datatype MergeError = InvalidJson | NotAnObject | BadSection | BadExports

  const SECTIONS: seq<string> := ["dependencies", "devDependencies", "peerDependencies", "optionalDependencies"]

  predicate IdentityField(key: string) {
    key == "name" || key == "version" || key == "exports"
  }

  // ----- specification

  predicate Versions(section: Json) {
    section.Object? && forall name :: name in section.fields ==> section.fields[name].String?
  }

  predicate ValidSections(user: Fields) {
    forall section :: section in SECTIONS && section in user ==> Versions(user[section])
  }

  predicate DependsIn(fields: Fields, section: string, name: string) {
    section in fields && fields[section].Object? && name in fields[section].fields
  }

  /** The user depends on this package, in whatever section. */
  predicate Depends(user: Fields, name: string) {
    exists section :: section in SECTIONS && DependsIn(user, section, name)
  }

  function Retained(user: Fields, entries: Fields): Fields {
    map name | name in entries && !Depends(user, name) :: entries[name]
  }

  /** The requirements that are appended: no identity, and no package the user depends on. */
  function Remaining(user: Fields, required: Fields): Fields {
    map key | key in required && !IdentityField(key) ::
      if key in SECTIONS && required[key].Object? then Object(Retained(user, required[key].fields)) else required[key]
  }

  function AppendItems(user: seq<Json>, required: seq<Json>): seq<Json>
    decreases |required|
  {
    if required == [] then user
    else AppendItems(if required[0] in user then user else user + [required[0]], required[1..])
  }

  function Append(user: Json, required: Json): Json
    decreases required
  {
    if user.Object? && required.Object? then
      Object(map key | key in user.fields.Keys + required.fields.Keys ::
        if key !in required.fields then user.fields[key]
        else if key !in user.fields then required.fields[key]
        else Append(user.fields[key], required.fields[key]))
    else if user.Array? && required.Array? then Array(AppendItems(user.items, required.items))
    else user
  }

  function Overwrite(user: Fields, required: Fields, field: string): Fields {
    if field in required then user[field := required[field]] else user
  }

  function WithExports(user: Fields, required: Fields): Option<Fields> {
    if "exports" !in required then Some(user)
    else
      match required["exports"]
      case Object(exports) =>
        var target := if "exports" in user then user["exports"] else Object(map[]);
        if target.Object? then Some(user["exports" := Object(target.fields + exports)]) else None
      case exports => Some(user["exports" := exports])
  }

  /** The user's fields under the generated name, version and exports. */
  function Identified(user: Fields, required: Fields): Option<Fields> {
    WithExports(Overwrite(Overwrite(user, required, "name"), required, "version"), required)
  }

  function Merge(user: Fields, required: Fields): Result<Fields, MergeError> {
    if !ValidSections(user) then Err(BadSection)
    else
      match Identified(user, required)
      case None => Err(BadExports)
      case Some(identified) => Ok(Append(Object(identified), Object(Remaining(user, required))).fields)
  }

  // ----- appending

  lemma {:induction false} AppendItemsSpec(user: seq<Json>, required: seq<Json>)
    ensures user <= AppendItems(user, required)
    ensures forall x :: x in AppendItems(user, required) <==> x in user || x in required
    decreases |required|
  {
    if required != [] {
      AppendItemsSpec(if required[0] in user then user else user + [required[0]], required[1..]);
      assert forall x :: x in required <==> x == required[0] || x in required[1..];
    }
  }

  lemma {:induction false} NothingToAppend(user: seq<Json>, required: seq<Json>)
    requires forall x :: x in required ==> x in user
    ensures AppendItems(user, required) == user
    decreases |required|
  {
    if required != [] {
      NothingToAppend(user, required[1..]);
    }
  }

  lemma {:induction false} AppendSelf(value: Json)
    ensures Append(value, value) == value
    decreases value
  {
    match value
    case Object(fields) =>
      forall key | key in fields ensures Append(fields[key], fields[key]) == fields[key] {
        AppendSelf(fields[key]);
      }
      assert Append(value, value).fields == fields;
    case Array(items) => NothingToAppend(items, items);
    case _ =>
  }

  lemma {:induction false} AppendTwice(user: Json, required: Json)
    ensures Append(Append(user, required), required) == Append(user, required)
    decreases required
  {
    var once := Append(user, required);
    if user.Object? && required.Object? {
      forall key | key in required.fields ensures Append(once.fields[key], required.fields[key]) == once.fields[key] {
        if key in user.fields {
          AppendTwice(user.fields[key], required.fields[key]);
        } else {
          AppendSelf(required.fields[key]);
        }
      }
      assert Append(once, required).fields == once.fields;
    } else if user.Array? && required.Array? {
      AppendItemsSpec(user.items, required.items);
      NothingToAppend(once.items, required.items);
    }
  }

  /** Everything the user wrote is still there: fields recursively, array items as a prefix,
      and any other value unchanged. */
  ghost predicate Keeps(user: Json, merged: Json)
    decreases user
  {
    match user
    case Object(fields) =>
      merged.Object? && forall key :: key in fields ==> key in merged.fields && Keeps(fields[key], merged.fields[key])
    case Array(items) => merged.Array? && items <= merged.items
    case _ => merged == user
  }

  lemma {:induction false} AppendKeeps(user: Json, required: Json)
    ensures Keeps(user, Append(user, required))
    decreases user
  {
    match user
    case Object(fields) =>
      forall key | key in fields ensures Keeps(fields[key], Append(user, required).fields[key]) {
        if required.Object? && key in required.fields {
          AppendKeeps(fields[key], required.fields[key]);
        } else {
          KeepsItself(fields[key]);
        }
      }
    case Array(items) =>
      if required.Array? {
        AppendItemsSpec(items, required.items);
      }
    case _ =>
  }

  lemma {:induction false} KeepsItself(value: Json)
    ensures Keeps(value, value)
    decreases value
  {
    if value.Object? {
      forall key | key in value.fields ensures Keeps(value.fields[key], value.fields[key]) {
        KeepsItself(value.fields[key]);
      }
    }
  }

  /** What is appended to a list: the required items it lacks, each once, in the order in which
      they are first required. */
  ghost predicate AppendsMissing(user: seq<Json>, required: seq<Json>, merged: seq<Json>) {
    && user <= merged
    && (forall x :: x in required ==> x in merged)
    && (forall i :: |user| <= i < |merged| ==> merged[i] in required && merged[i] !in user)
    && (forall i, j :: |user| <= i < j < |merged| ==> RequiredBefore(required, merged[i], merged[j]))
  }

  ghost predicate RequiredBefore(required: seq<Json>, a: Json, b: Json) {
    a != b && exists p :: 0 <= p < |required| && required[p] == a && b !in required[..p]
  }

  /** The requirement is met as far as the user's values allow: fields that the user lacks are
      there as required, lists have the required items, and nothing else was added. */
  ghost predicate Gives(user: Json, required: Json, merged: Json)
    decreases required
  {
    if user.Object? && required.Object? then
      && merged.Object?
      && (forall key :: key in required.fields ==>
        key in merged.fields &&
        if key in user.fields then Gives(user.fields[key], required.fields[key], merged.fields[key])
        else merged.fields[key] == required.fields[key])
      && (forall key :: key in merged.fields ==> key in user.fields || key in required.fields)
    else if user.Array? && required.Array? then merged.Array? && AppendsMissing(user.items, required.items, merged.items)
    else merged == user
  }

  lemma {:induction false} AppendItemsMissing(user: seq<Json>, required: seq<Json>)
    ensures AppendsMissing(user, required, AppendItems(user, required))
    decreases |required|
  {
    if required != [] {
      var first, rest := required[0], required[1..];
      var next := if first in user then user else user + [first];
      AppendItemsMissing(next, rest);
      AppendItemsSpec(next, rest);
      FirstIsAppended(user, required, AppendItems(next, rest));
    }
  }

  lemma StillBefore(required: seq<Json>, a: Json, b: Json)
    requires required != [] && b != required[0] && RequiredBefore(required[1..], a, b)
    ensures RequiredBefore(required, a, b)
  {
    var rest := required[1..];
    var p :| 0 <= p < |rest| && rest[p] == a && b !in rest[..p];
    assert required[p + 1] == a && required[..p + 1] == [required[0]] + rest[..p];
  }

  lemma BeforeOthers(required: seq<Json>, b: Json)
    requires required != [] && b != required[0]
    ensures RequiredBefore(required, required[0], b)
  {
    assert b !in required[..0];
  }

  lemma FirstIsAppended(user: seq<Json>, required: seq<Json>, merged: seq<Json>)
    requires required != []
    requires AppendsMissing(if required[0] in user then user else user + [required[0]], required[1..], merged)
    ensures AppendsMissing(user, required, merged)
  {
    hide RequiredBefore;
    var first := required[0];
    var next := if first in user then user else user + [first];
    assert forall x :: x in required <==> x == first || x in required[1..];
    assert first in next && forall x :: x in user ==> x in next;
    assert forall i :: |user| <= i < |next| ==> next[i] == first;
    assert forall i :: 0 <= i < |next| ==> merged[i] == next[i];
    forall i, j | |user| <= i < j < |merged| ensures RequiredBefore(required, merged[i], merged[j]) {
      if i < |next| {
        BeforeOthers(required, merged[j]);
      } else {
        StillBefore(required, merged[i], merged[j]);
      }
    }
  }

  lemma {:induction false} AppendGives(user: Json, required: Json)
    ensures Gives(user, required, Append(user, required))
    decreases required
  {
    if user.Object? && required.Object? {
      forall key | key in required.fields && key in user.fields
        ensures Gives(user.fields[key], required.fields[key], Append(user, required).fields[key])
      {
        AppendGives(user.fields[key], required.fields[key]);
      }
    } else if user.Array? && required.Array? {
      AppendItemsMissing(user.items, required.items);
    }
  }

  // ----- what a merge keeps and adds

  lemma SectionsAreOrdinary()
    ensures forall section :: section in SECTIONS ==> !IdentityField(section)
  {
    assert |"name"| == 4 && |"version"| == 7 && |"exports"| == 7;
    assert forall section :: section in SECTIONS ==> |section| >= 12;
  }

  lemma MergedField(user: Fields, required: Fields, key: string)
    requires Merge(user, required).Ok? && !IdentityField(key)
    ensures var merged := Merge(user, required).value;
      var remaining := Remaining(user, required);
      && (key in merged <==> key in user || key in required)
      && (key in remaining <==> key in required)
      && (key in user && key !in required ==> merged[key] == user[key])
      && (key !in user && key in required ==> merged[key] == remaining[key])
      && (key in user && key in required ==> merged[key] == Append(user[key], remaining[key]))
  {
  }

  lemma DistinctFields()
    ensures "name" != "version" && "name" != "exports" && "version" != "exports"
  {
    assert "name"[0] == 'n' && "version"[0] == 'v' && "exports"[0] == 'e';
  }

  lemma IdentifiedField(user: Fields, required: Fields, field: string)
    requires Merge(user, required).Ok? && IdentityField(field)
    ensures var merged := Merge(user, required).value;
      var identified := Identified(user, required).value;
      (field in merged <==> field in identified) && (field in merged ==> merged[field] == identified[field])
  {
  }

  /** User-owned values win: outside the identity of the package everything the user wrote
      is kept, and what only the generator asks for is added as it is. */
  lemma MergeKeepsUser(user: Fields, required: Fields, key: string)
    requires Merge(user, required).Ok? && !IdentityField(key)
    ensures var merged := Merge(user, required).value;
      && (key in user ==> key in merged && Keeps(user[key], merged[key]))
      && (key !in user && key in required && key !in SECTIONS ==> key in merged && merged[key] == required[key])
      && (key in merged ==> key in user || key in required)
  {
    MergedField(user, required, key);
    if key in user && key in required {
      AppendKeeps(user[key], Remaining(user, required)[key]);
    } else if key in user {
      KeepsItself(user[key]);
    }
  }

  /** Outside the identity and the dependency sections exactly what the user lacks is added. */
  lemma MergeGives(user: Fields, required: Fields, key: string)
    requires Merge(user, required).Ok? && key !in {"name", "version", "exports"} && key in required
    requires key in SectionNames() ==> !required[key].Object?
    ensures var merged := Merge(user, required).value;
      && key in merged
      && if key in user then Gives(user[key], required[key], merged[key]) else merged[key] == required[key]
  {
    hide Merge, Append, Gives;
    SectionsByName();
    MergedField(user, required, key);
    RequiredAsIs(user, required, key);
    if key in user {
      AppendGives(user[key], required[key]);
    }
  }

  lemma RequiredAsIs(user: Fields, required: Fields, key: string)
    requires !IdentityField(key) && key in required && (key in SECTIONS ==> !required[key].Object?)
    ensures key in Remaining(user, required) && Remaining(user, required)[key] == required[key]
  {
  }

  /** The sections in which npm looks for dependencies. */
  function SectionNames(): set<string> {
    {"dependencies", "devDependencies", "peerDependencies", "optionalDependencies"}
  }

  lemma SectionsByName()
    ensures forall key :: key in SECTIONS <==> key in SectionNames()
    ensures forall key :: IdentityField(key) <==> key in {"name", "version", "exports"}
  {
    assert SECTIONS[0] == "dependencies" && SECTIONS[1] == "devDependencies" && SECTIONS[2] == "peerDependencies" && SECTIONS[3] == "optionalDependencies";
  }

  /** The generated name, version and export destinations are authoritative; exports that
      only the user declares stay. */
  lemma MergeIdentifies(user: Fields, required: Fields, field: string)
    requires Merge(user, required).Ok? && IdentityField(field)
    ensures var merged := Merge(user, required).value;
      && (field in merged <==> field in user || field in required)
      && (field !in required && field in user ==> merged[field] == user[field])
      && (field in required && (field != "exports" || !required[field].Object?) ==> merged[field] == required[field])
      && (field == "exports" && field in required && required[field].Object? ==>
        && merged[field].Object?
        && (forall key :: key in required[field].fields ==>
          key in merged[field].fields && merged[field].fields[key] == required[field].fields[key])
        && (field in user ==> user[field].Object? && forall key :: key in user[field].fields && key !in required[field].fields ==>
          key in merged[field].fields && merged[field].fields[key] == user[field].fields[key]))
  {
    DistinctFields();
    IdentifiedField(user, required, field);
  }

  lemma ExportsAgain(merged: Fields, required: Fields)
    requires "exports" in required && "exports" in merged
    requires if required["exports"].Object? then
        && merged["exports"].Object?
        && forall key :: key in required["exports"].fields ==>
          key in merged["exports"].fields && merged["exports"].fields[key] == required["exports"].fields[key]
      else merged["exports"] == required["exports"]
    ensures WithExports(merged, required) == Some(merged)
  {
    if required["exports"].Object? {
      assert merged["exports"].fields + required["exports"].fields == merged["exports"].fields;
    }
    assert merged["exports" := merged["exports"]] == merged;
  }

  lemma MergedIdentity(user: Fields, required: Fields)
    requires Merge(user, required).Ok?
    ensures Identified(Merge(user, required).value, required) == Some(Merge(user, required).value)
  {
    hide Merge, WithExports;
    var merged := Merge(user, required).value;
    MergeIdentifies(user, required, "name");
    MergeIdentifies(user, required, "version");
    MergeIdentifies(user, required, "exports");
    DistinctFields();
    assert Overwrite(merged, required, "name") == merged;
    assert Overwrite(merged, required, "version") == merged;
    if "exports" in required {
      ExportsAgain(merged, required);
    } else {
      NoExports(merged, required);
    }
  }

  lemma NoExports(merged: Fields, required: Fields)
    requires "exports" !in required
    ensures WithExports(merged, required) == Some(merged)
  {
  }

  /** A dependency of the user stays in its section with its range; a required package ends
      up in some section, and is added to one only if the user depends on it nowhere. */
  lemma MergeDependencies(user: Fields, required: Fields, section: string, name: string)
    requires Merge(user, required).Ok? && section in SECTIONS
    ensures var merged := Merge(user, required).value;
      && (DependsIn(user, section, name) ==>
        DependsIn(merged, section, name) && merged[section].fields[name] == user[section].fields[name])
      && (DependsIn(required, section, name) ==> Depends(merged, name))
      && (DependsIn(required, section, name) && !Depends(user, name) ==> DependsIn(merged, section, name))
      && (section in required && required[section].Object? ==> section in merged && merged[section].Object?)
      && (DependsIn(merged, section, name) && !DependsIn(user, section, name) ==>
        && !Depends(user, name)
        && DependsIn(required, section, name)
        && merged[section].fields[name] == required[section].fields[name])
  {
    SectionsAreOrdinary();
    MergedField(user, required, section);
    var merged := Merge(user, required).value;
    if DependsIn(required, section, name) {
      if Depends(user, name) {
        var other :| other in SECTIONS && DependsIn(user, other, name);
        MergedField(user, required, other);
        if other in required {
          AppendKeeps(user[other], Remaining(user, required)[other]);
        }
        assert DependsIn(merged, other, name);
      } else {
        assert DependsIn(merged, section, name);
      }
    }
  }

  // ----- merging again

  /** What the generator adds to a section keeps it a section. */
  predicate AddsVersions(user: Fields, required: Fields, section: string) {
    section in required ==>
      && (section !in user ==> required[section].Object?)
      && (required[section].Object? ==> Versions(Object(Retained(user, required[section].fields))))
  }

  lemma MergedSection(user: Fields, required: Fields, section: string)
    requires Merge(user, required).Ok? && section in SECTIONS
    ensures var merged := Merge(user, required).value;
      section in merged ==> (Versions(merged[section]) <==> AddsVersions(user, required, section))
  {
    SectionsAreOrdinary();
    MergedField(user, required, section);
    var merged := Merge(user, required).value;
    if section in merged && section in required && required[section].Object? {
      var added := Retained(user, required[section].fields);
      if section in user {
        assert forall name :: name in added ==> name !in user[section].fields by {
          assert forall name :: name in user[section].fields ==> Depends(user, name);
        }
        assert forall name :: name in added ==> merged[section].fields[name] == added[name];
      }
    }
  }

  lemma MergedRemaining(user: Fields, required: Fields, key: string)
    requires Merge(user, required).Ok? && key in required && !IdentityField(key)
    requires key in SECTIONS ==> AddsVersions(user, required, key)
    ensures var merged := Merge(user, required).value;
      Append(merged[key], Remaining(merged, required)[key]) == merged[key]
  {
    hide Merge, AppendItems, Versions;
    MergedField(user, required, key);
    var merged := Merge(user, required).value;
    if key in SECTIONS && required[key].Object? {
      forall name | name in required[key].fields ensures Depends(merged, name) {
        MergeDependencies(user, required, key, name);
      }
      assert Retained(merged, required[key].fields) == map[];
      if merged[key].Object? {
        assert Append(merged[key], Object(map[])).fields == merged[key].fields;
      }
    } else if key in user {
      AppendTwice(user[key], required[key]);
    } else {
      AppendSelf(required[key]);
    }
  }

  lemma MergeAgain(merged: Fields, required: Fields)
    requires ValidSections(merged) && Identified(merged, required) == Some(merged)
    requires forall key :: key in required && !IdentityField(key) ==>
      key in merged && Append(merged[key], Remaining(merged, required)[key]) == merged[key]
    ensures Merge(merged, required) == Ok(merged)
  {
    hide Identified, ValidSections;
    assert Append(Object(merged), Object(Remaining(merged, required))).fields == merged;
  }

  /** Merging the same requirements again changes nothing, exactly when what they add to the
      dependency sections are versions. Otherwise the second merge is refused. */
  lemma MergeIsIdempotentExactly(user: Fields, required: Fields)
    requires Merge(user, required).Ok?
    ensures var merged := Merge(user, required).value;
      && (Merge(merged, required) == Ok(merged) <==> forall section :: section in SECTIONS ==> AddsVersions(user, required, section))
      && (Merge(merged, required) != Ok(merged) ==> Merge(merged, required) == Err(BadSection))
  {
    var merged := Merge(user, required).value;
    SectionsAreOrdinary();
    forall section | section in SECTIONS
      ensures section in required ==> section in merged
      ensures section in merged ==> (Versions(merged[section]) <==> AddsVersions(user, required, section))
    {
      MergedSection(user, required, section);
      MergedField(user, required, section);
    }
    MergedIdentity(user, required);
    hide Identified, AddsVersions, Versions, Remaining, Retained;
    if ValidSections(merged) {
      forall key | key in required && !IdentityField(key)
        ensures key in merged && Append(merged[key], Remaining(merged, required)[key]) == merged[key]
      {
        MergedField(user, required, key);
        MergedRemaining(user, required, key);
      }
      MergeAgain(merged, required);
    }
  }

  // ----- the merge as it is carried out

  /** JSON text; printing ends with a newline. */
  datatype Codec = Codec(parse: string -> Option<Json>, print_: Json -> string)

  function MergeText(codec: Codec, existing: string, generated: string): Result<string, MergeError> {
    var user, required := codec.parse(existing), codec.parse(generated);
    if user.None? || required.None? then Err(InvalidJson)
    else if !user.value.Object? || !required.value.Object? then Err(NotAnObject)
    else
      match Merge(user.value.fields, required.value.fields)
      case Err(error) => Err(error)
      case Ok(merged) => Ok(codec.print_(Object(merged)))
  }

  method AppendInto(user: Json, required: Json) returns (merged: Json)
    ensures merged == Append(user, required)
    ensures Gives(user, required, merged) && Keeps(user, merged)
    decreases required, 1
  {
    AppendGives(user, required);
    AppendKeeps(user, required);
    if user.Object? && required.Object? {
      merged := AppendFields(user, required);
    } else if user.Array? && required.Array? {
      var items := user.items;
      for i := 0 to |required.items|
        invariant AppendItems(user.items, required.items) == AppendItems(items, required.items[i..])
      {
        if required.items[i] !in items {
          items := items + [required.items[i]];
        }
      }
      merged := Array(items);
    } else {
      merged := user;
    }
  }

  lemma AppendedFields(user: Json, required: Json)
    requires user.Object? && required.Object?
    ensures Append(user, required).Object?
    ensures var fields := Append(user, required).fields;
      && fields.Keys == user.fields.Keys + required.fields.Keys
      && (forall key :: key in user.fields && key !in required.fields ==> fields[key] == user.fields[key])
      && (forall key :: key !in user.fields && key in required.fields ==> fields[key] == required.fields[key])
      && (forall key :: key in user.fields && key in required.fields ==>
        fields[key] == Append(user.fields[key], required.fields[key]))
  {
  }

  method AppendFields(user: Json, required: Json) returns (merged: Json)
    requires user.Object? && required.Object?
    ensures merged == Append(user, required)
    decreases required, 0
  {
    hide Append, AppendItems;
    AppendedFields(user, required);
    ghost var expected := Append(user, required).fields;
    var fields, todo := user.fields, required.fields.Keys;
    while todo != {}
      invariant todo <= required.fields.Keys
      invariant fields.Keys == user.fields.Keys + (required.fields.Keys - todo)
      invariant forall key :: key in fields && key in todo ==> fields[key] == user.fields[key]
      invariant forall key :: key in fields && key !in todo ==> fields[key] == expected[key]
      decreases |todo|
    {
      var key :| key in todo;
      if key in fields {
        var value := AppendInto(fields[key], required.fields[key]);
        assert value == expected[key];
        fields := fields[key := value];
      } else {
        fields := fields[key := required.fields[key]];
      }
      todo := todo - {key};
    }
    merged := Object(fields);
    assert fields == expected;
  }

  method Retain(user: Fields, required: Fields) returns (remaining: Fields)
    ensures remaining == map key | key in required ::
      if key in SECTIONS && required[key].Object? then Object(Retained(user, required[key].fields)) else required[key]
  {
    remaining := required;
    for i := 0 to |SECTIONS|
      invariant remaining.Keys == required.Keys
      invariant forall key :: key in required && !(key in SECTIONS[..i] && required[key].Object?) ==>
        remaining[key] == required[key]
      invariant forall key :: key in required && key in SECTIONS[..i] && required[key].Object? ==>
        remaining[key] == Object(Retained(user, required[key].fields))
    {
      var section := SECTIONS[i];
      assert SECTIONS[..i + 1] == SECTIONS[..i] + [section];
      if section in remaining && remaining[section].Object? {
        assert section !in SECTIONS[..i] by { DistinctSections(); }
        var entries := remaining[section].fields;
        remaining := remaining[section := Object(Retained(user, entries))];
      }
    }
  }

  lemma DistinctSections()
    ensures forall i, j :: 0 <= i < j < |SECTIONS| ==> SECTIONS[i] != SECTIONS[j]
  {
    assert SECTIONS[0][1] == 'e' && SECTIONS[0][2] == 'p' && SECTIONS[1][2] == 'v';
    assert SECTIONS[2][0] == 'p' && SECTIONS[3][0] == 'o';
    assert SECTIONS[0][0] == 'd' && SECTIONS[1][0] == 'd';
  }

  /** Name and version are overwritten, exports added entry by entry. */
  method Identify(fields: Fields, required: Fields) returns (r: Option<Fields>)
    ensures r == Identified(fields, required)
  {
    var user := Overwrite(fields, required, "name");
    user := Overwrite(user, required, "version");
    if "exports" in required {
      if required["exports"].Object? {
        var target := if "exports" in user then user["exports"] else Object(map[]);
        if !target.Object? {
          return None;
        }
        user := user["exports" := Object(target.fields + required["exports"].fields)];
      } else {
        user := user["exports" := required["exports"]];
      }
    }
    return Some(user);
  }

  lemma SameIdentity(user: Fields, required: Fields, retained: Fields)
    requires forall field :: IdentityField(field) ==>
      (field in retained <==> field in required) && (field in required ==> retained[field] == required[field])
    ensures Identified(user, retained) == Identified(user, required)
  {
    assert IdentityField("name") && IdentityField("version") && IdentityField("exports");
  }

  /** What is retained has the same identity, and without it is what remains. */
  lemma RetainedParts(user: Fields, required: Fields, retained: Fields)
    requires retained == map key | key in required ::
      if key in SECTIONS && required[key].Object? then Object(Retained(user, required[key].fields)) else required[key]
    ensures Identified(user, retained) == Identified(user, required)
    ensures retained - {"name", "version", "exports"} == Remaining(user, required)
  {
    hide Retained, Identified;
    SectionsAreOrdinary();
    SameIdentity(user, required, retained);
  }

  /** What must not be merged: text that is no JSON object, a section of the user's that does
      not map names to versions, and exports of the user's that are no object where entries
      are to be added. */
  ghost predicate Unmergeable(codec: Codec, existing: string, generated: string) {
    var user, required := codec.parse(existing), codec.parse(generated);
    || user.None? || required.None? || !user.value.Object? || !required.value.Object?
    || (exists section :: section in SectionNames() && section in user.value.fields && !Versions(user.value.fields[section]))
    || (&& "exports" in required.value.fields && required.value.fields["exports"].Object?
        && "exports" in user.value.fields && !user.value.fields["exports"].Object?)
  }

  lemma MergeFailsExactly(codec: Codec, existing: string, generated: string)
    ensures MergeText(codec, existing, generated).Err? <==> Unmergeable(codec, existing, generated)
  {
    hide Versions, Append, Remaining;
    SectionsByName();
    DistinctFields();
  }

  /** This is the version of a dependency in this section. */
  ghost predicate ListsVersion(manifest: Fields, section: string, name: string, version: Json) {
    section in manifest && manifest[section].Object? && name in manifest[section].fields && manifest[section].fields[name] == version
  }

  /** The user's dependencies stay, and what is required is added where the user has it nowhere. */
  ghost predicate DependenciesMerged(user: Fields, required: Fields, merged: Fields, section: string, name: string) {
    forall version :: ListsVersion(merged, section, name, version) <==>
      || ListsVersion(user, section, name, version)
      || (ListsVersion(required, section, name, version) && forall other, present :: other in SectionNames() ==> !ListsVersion(user, other, name, present))
  }

  lemma DependenciesExactly(user: Fields, required: Fields, section: string, name: string)
    requires Merge(user, required).Ok? && section in SectionNames()
    ensures DependenciesMerged(user, required, Merge(user, required).value, section, name)
  {
    hide Merge;
    SectionsByName();
    MergeDependencies(user, required, section, name);
    assert Depends(user, name) <==> exists other :: other in SectionNames() && DependsIn(user, other, name);
    forall other | other in SectionNames() && DependsIn(user, other, name)
      ensures ListsVersion(user, other, name, user[other].fields[name])
    {
    }
  }

  /** The required exports go first, those that only the user has stay. */
  ghost predicate ExportsMerged(user: Fields, required: Fields, merged: Fields)
    requires "exports" in merged <==> "exports" in user || "exports" in required
  {
    if "exports" !in required then "exports" in user ==> merged["exports"] == user["exports"]
    else if !required["exports"].Object? then merged["exports"] == required["exports"]
    else
      && merged["exports"].Object?
      && forall key :: if key in required["exports"].fields then key in merged["exports"].fields && merged["exports"].fields[key] == required["exports"].fields[key]
         else if "exports" in user && user["exports"].Object? && key in user["exports"].fields then
           key in merged["exports"].fields && merged["exports"].fields[key] == user["exports"].fields[key]
         else key !in merged["exports"].fields
  }

  lemma ExportsExactly(user: Fields, required: Fields)
    requires Merge(user, required).Ok?
    ensures "exports" in Merge(user, required).value <==> "exports" in user || "exports" in required
    ensures ExportsMerged(user, required, Merge(user, required).value)
  {
    DistinctFields();
    IdentifiedField(user, required, "exports");
  }

  /** Everything that is said of merged fields, for the text that is written. */
  ghost predicate MergedAsPromised(user: Fields, required: Fields, merged: Fields) {
    && (forall key :: key in merged <==> key in user || key in required)
    && (forall key :: key in user && key !in {"name", "version", "exports"} ==> Keeps(user[key], merged[key]))
    && (forall key :: key in required && key !in {"name", "version", "exports"} && (key in SectionNames() ==> !required[key].Object?) ==>
      if key in user then Gives(user[key], required[key], merged[key]) else merged[key] == required[key])
    && (forall field :: field in {"name", "version"} && field in required ==> merged[field] == required[field])
    && (forall field :: field in {"name", "version"} && field !in required && field in user ==> merged[field] == user[field])
    && (forall section, name :: section in SectionNames() ==> DependenciesMerged(user, required, merged, section, name))
    && ExportsMerged(user, required, merged)
  }

  lemma MergePromise(user: Fields, required: Fields)
    requires Merge(user, required).Ok?
    ensures MergedAsPromised(user, required, Merge(user, required).value)
  {
    hide Merge, Keeps, Gives, DependenciesMerged, ExportsMerged;
    SectionsByName();
    var merged := Merge(user, required).value;
    forall key ensures key in merged <==> key in user || key in required {
      if IdentityField(key) {
        MergeIdentifies(user, required, key);
      } else {
        MergedField(user, required, key);
      }
    }
    forall key | key in user && key !in {"name", "version", "exports"} ensures Keeps(user[key], merged[key]) {
      MergeKeepsUser(user, required, key);
    }
    forall key | key in required && key !in {"name", "version", "exports"} && (key in SectionNames() ==> !required[key].Object?)
      ensures if key in user then Gives(user[key], required[key], merged[key]) else merged[key] == required[key]
    {
      MergeGives(user, required, key);
    }
    DistinctFields();
    forall field | field in {"name", "version"}
      ensures field in required ==> merged[field] == required[field]
      ensures field !in required && field in user ==> merged[field] == user[field]
    {
      MergeIdentifies(user, required, field);
    }
    forall section, name | section in SectionNames() ensures DependenciesMerged(user, required, merged, section, name) {
      DependenciesExactly(user, required, section, name);
    }
    ExportsExactly(user, required);
  }

  ghost predicate IsMergedText(codec: Codec, existing: string, generated: string, text: string) {
    && codec.parse(existing).Some? && codec.parse(generated).Some?
    && codec.parse(existing).value.Object? && codec.parse(generated).value.Object?
    && exists merged :: text == codec.print_(Object(merged)) && MergedAsPromised(codec.parse(existing).value.fields, codec.parse(generated).value.fields, merged)
  }

  lemma MergeTextPromise(codec: Codec, existing: string, generated: string)
    ensures MergeText(codec, existing, generated).Ok? ==>
      IsMergedText(codec, existing, generated, MergeText(codec, existing, generated).value)
  {
    hide Merge, MergedAsPromised;
    if MergeText(codec, existing, generated).Ok? {
      MergePromise(codec.parse(existing).value.fields, codec.parse(generated).value.fields);
    }
  }

  method MergeNpmManifest(codec: Codec, existing: string, generated: string) returns (r: Result<string, MergeError>)
    ensures r == MergeText(codec, existing, generated)
    ensures r.Err? <==> Unmergeable(codec, existing, generated)
    ensures r.Ok? ==> IsMergedText(codec, existing, generated, r.value)
  {
    hide Identified, Versions, Remaining, Append, Retained, Unmergeable, IsMergedText;
    MergeFailsExactly(codec, existing, generated);
    MergeTextPromise(codec, existing, generated);
    var parsed, generatedValue := codec.parse(existing), codec.parse(generated);
    if parsed.None? || generatedValue.None? {
      return Err(InvalidJson);
    }
    if !parsed.value.Object? || !generatedValue.value.Object? {
      return Err(NotAnObject);
    }
    var user, required := parsed.value.fields, generatedValue.value.fields;
    for i := 0 to |SECTIONS|
      invariant forall j :: 0 <= j < i && SECTIONS[j] in user ==> Versions(user[SECTIONS[j]])
    {
      if SECTIONS[i] in user && !Versions(user[SECTIONS[i]]) {
        return Err(BadSection);
      }
    }
    var retained := Retain(user, required);
    RetainedParts(user, required, retained);
    var identified := Identify(user, retained);
    if identified.None? {
      return Err(BadExports);
    }
    var remaining := retained - {"name", "version", "exports"};
    var merged := AppendInto(Object(identified.value), Object(remaining));
    r := Ok(codec.print_(merged));
    AppendIsObject(identified.value, remaining);
  }

  lemma AppendIsObject(user: Fields, required: Fields)
    ensures Append(Object(user), Object(required)).Object?
  {
  }

  // ----- concrete manifests

  /** An empty manifest and a requirement whose version is null: the first merge writes a
      section that the second one refuses. */
  lemma NullVersionIsRefused()
    ensures var required := map["dependencies" := Object(map["x" := Null])];
      && Merge(map[], required) == Ok(required)
      && Merge(required, required) == Err(BadSection)
  {
    var required: Fields := map["dependencies" := Object(map["x" := Null])];
    SectionsAreOrdinary();
    assert SECTIONS[0] == "dependencies" && "dependencies" in SECTIONS;
    assert Identified(map[], required) == Some(map[]) by {
      assert !IdentityField("dependencies");
    }
    assert !Depends(map[], "x");
    assert Retained(map[], map["x" := Null]) == map["x" := Null];
    assert Remaining(map[], required) == required;
    assert Append(Object(map[]), Object(required)).fields == required;
    assert "x" in required["dependencies"].fields && required["dependencies"].fields["x"] == Null;
  }
}
