/** Hiding the reference keys inside extension payloads from the model index, and bringing
    them back. The key nodes of a document are cells that are renamed in place; a document
    refers to them by number. */
module ExtensionReferences {

  datatype Entry = Entry(key: nat, value: Tree)
  datatype Tree = Scalar(text: string) | Mapping(entries: seq<Entry>) | Sequence(items: seq<Tree>)

  const REFERENCE := "$ref"

  predicate Catalogue(key: string) {
    key == "schemas" || key == "properties" || key == "patternProperties" || key == "$defs" || key == "definitions"
  }

  /** Below this key everything is an extension payload. */
  predicate Opens(payload: bool, entries: bool, key: string) {
    payload || (!entries && "x-" <= key)
  }

  // ----- documents

  ghost predicate Has(tree: Tree, key: nat)
    decreases tree, 0
  {
    match tree
    case Scalar(_) => false
    case Sequence(items) => exists i :: 0 <= i < |items| && Has(items[i], key)
    case Mapping(es) => exists i :: 0 <= i < |es| && EntryHas(es[i], key)
  }

  ghost predicate EntryHas(e: Entry, key: nat)
    decreases e.value, 1
  {
    key == e.key || Has(e.value, key)
  }

  /** No key cell occurs twice, and all are among the first `n`. */
  ghost predicate IsTree(tree: Tree, n: nat) {
    match tree
    case Scalar(_) => true
    case Sequence(items) =>
      && (forall i :: 0 <= i < |items| ==> IsTree(items[i], n))
      && (forall i, j, k :: 0 <= i < j < |items| && Has(items[i], k) ==> !Has(items[j], k))
    case Mapping(es) =>
      && (forall i :: 0 <= i < |es| ==> IsTree(es[i].value, n) && es[i].key < n && !Has(es[i].value, es[i].key))
      && (forall i, j, k :: 0 <= i < j < |es| && EntryHas(es[i], k) ==> !EntryHas(es[j], k))
  }

  lemma {:induction false} KeysFit(tree: Tree, n: nat, key: nat)
    requires IsTree(tree, n) && Has(tree, key)
    ensures key < n
  {
    match tree
    case Scalar(_) =>
    case Sequence(items) =>
      var i :| 0 <= i < |items| && Has(items[i], key);
      KeysFit(items[i], n, key);
    case Mapping(es) =>
      var i :| 0 <= i < |es| && EntryHas(es[i], key);
      if key != es[i].key {
        KeysFit(es[i].value, n, key);
      }
  }

  /** The texts of the key cells. */
  type Texts = seq<string>

  function At(v: Texts, key: nat): string {
    if key < |v| then v[key] else ""
  }

  /** The key is part of an extension payload. */
  ghost predicate InPayload(key: nat, tree: Tree, v: Texts, payload: bool, entries: bool)
    decreases tree, 0
  {
    match tree
    case Scalar(_) => false
    case Sequence(items) => exists i :: 0 <= i < |items| && InPayload(key, items[i], v, payload, false)
    case Mapping(es) => exists i :: 0 <= i < |es| && EntryInPayload(key, es[i], v, payload, entries)
  }

  ghost predicate EntryInPayload(key: nat, e: Entry, v: Texts, payload: bool, entries: bool)
    decreases e.value, 1
  {
    || (payload && key == e.key)
    || InPayload(key, e.value, v, Opens(payload, entries, At(v, e.key)), Catalogue(At(v, e.key)))
  }

  lemma {:induction false} PayloadKeys(key: nat, tree: Tree, v: Texts, payload: bool, entries: bool)
    requires InPayload(key, tree, v, payload, entries)
    ensures Has(tree, key)
    decreases tree
  {
    match tree
    case Scalar(_) =>
    case Sequence(items) =>
      var i :| 0 <= i < |items| && InPayload(key, items[i], v, payload, false);
      PayloadKeys(key, items[i], v, payload, false);
    case Mapping(es) =>
      var i :| 0 <= i < |es| && EntryInPayload(key, es[i], v, payload, entries);
      if !(payload && key == es[i].key) {
        PayloadKeys(key, es[i].value, v, Opens(payload, entries, At(v, es[i].key)), Catalogue(At(v, es[i].key)));
      }
      assert EntryHas(es[i], key);
  }

  // ----- shielded documents

  /** Exactly the references in payloads have other texts. */
  ghost predicate Hidden(tree: Tree, v: Texts, w: Texts, payload: bool, entries: bool) {
    forall key :: Has(tree, key) ==> (At(w, key) != At(v, key) <==> InPayload(key, tree, v, payload, entries) && At(v, key) == REFERENCE)
  }

  /** A hidden key's text differs from its siblings'. */
  ghost predicate NoClash(tree: Tree, v: Texts, w: Texts, payload: bool, entries: bool)
    decreases tree, 0
  {
    match tree
    case Scalar(_) => true
    case Sequence(items) => forall i :: 0 <= i < |items| ==> NoClash(items[i], v, w, payload, false)
    case Mapping(es) =>
      && AllApart(es, |es|, v, w, payload)
      && forall i :: 0 <= i < |es| ==> NoClash(es[i].value, v, w, Opens(payload, entries, At(v, es[i].key)), Catalogue(At(v, es[i].key)))
  }

  ghost predicate Apart(es: seq<Entry>, i: nat, w: Texts) {
    forall j :: 0 <= j < |es| && i < |es| && j != i ==> At(w, es[i].key) != At(w, es[j].key)
  }

  /** The hidden ones among the first keys differ from all others. */
  ghost predicate AllApart(es: seq<Entry>, n: nat, v: Texts, w: Texts, payload: bool) {
    forall i :: 0 <= i < n && i < |es| && payload && At(v, es[i].key) == REFERENCE ==> Apart(es, i, w)
  }

  ghost predicate Shielded(tree: Tree, v: Texts, w: Texts, payload: bool, entries: bool) {
    Hidden(tree, v, w, payload, entries) && NoClash(tree, v, w, payload, entries)
  }

  ghost predicate EntryShielded(e: Entry, v: Texts, w: Texts, payload: bool, entries: bool) {
    && (At(w, e.key) != At(v, e.key) <==> payload && At(v, e.key) == REFERENCE)
    && Shielded(e.value, v, w, Opens(payload, entries, At(v, e.key)), Catalogue(At(v, e.key)))
  }

  ghost predicate Same(tree: Tree, v: Texts, w: Texts) {
    forall key :: Has(tree, key) ==> At(w, key) == At(v, key)
  }

  ghost predicate EntrySame(e: Entry, v: Texts, w: Texts) {
    forall key :: EntryHas(e, key) ==> At(w, key) == At(v, key)
  }

  /** Only the texts of the tree's own keys matter. */
  lemma StillShielded(tree: Tree, v: Texts, w: Texts, x: Texts, payload: bool, entries: bool)
    requires Shielded(tree, v, w, payload, entries) && Same(tree, w, x)
    ensures Shielded(tree, v, x, payload, entries)
  {
    StillNoClash(tree, v, w, x, payload, entries);
  }

  lemma {:induction false} StillNoClash(tree: Tree, v: Texts, w: Texts, x: Texts, payload: bool, entries: bool)
    requires NoClash(tree, v, w, payload, entries) && Same(tree, w, x)
    ensures NoClash(tree, v, x, payload, entries)
    decreases tree
  {
    match tree
    case Scalar(_) =>
    case Sequence(items) =>
      forall i | 0 <= i < |items| ensures NoClash(items[i], v, x, payload, false) {
        StillNoClash(items[i], v, w, x, payload, false);
      }
    case Mapping(es) =>
      forall i | 0 <= i < |es|
        ensures At(x, es[i].key) == At(w, es[i].key)
        ensures NoClash(es[i].value, v, x, Opens(payload, entries, At(v, es[i].key)), Catalogue(At(v, es[i].key)))
      {
        assert EntryHas(es[i], es[i].key) && forall k :: Has(es[i].value, k) ==> EntryHas(es[i], k);
        StillNoClash(es[i].value, v, w, x, Opens(payload, entries, At(v, es[i].key)), Catalogue(At(v, es[i].key)));
      }
      forall i | 0 <= i < |es| && payload && At(v, es[i].key) == REFERENCE ensures Apart(es, i, x) {
        assert Apart(es, i, w);
      }
  }

  /** The first entries are shielded, the others as before. */
  ghost predicate Progress(es: seq<Entry>, n: nat, v: Texts, w: Texts, payload: bool, entries: bool) {
    && (forall j :: 0 <= j < |es| ==> if j < n then EntryShielded(es[j], v, w, payload, entries) else EntrySame(es[j], v, w))
    && AllApart(es, n, v, w, payload)
  }

  lemma EntryStillShielded(e: Entry, v: Texts, w: Texts, x: Texts, payload: bool, entries: bool)
    requires EntryShielded(e, v, w, payload, entries) && EntrySame(e, w, x)
    ensures EntryShielded(e, v, x, payload, entries)
  {
    assert EntryHas(e, e.key) && forall k :: Has(e.value, k) ==> EntryHas(e, k);
    StillShielded(e.value, v, w, x, Opens(payload, entries, At(v, e.key)), Catalogue(At(v, e.key)));
  }

  lemma SameText(e: Entry, v: Texts, w: Texts, payload: bool, entries: bool)
    requires EntryShielded(e, v, w, payload, entries)
    ensures !(payload && At(v, e.key) == REFERENCE) ==> At(w, e.key) == At(v, e.key)
  {
  }

  lemma ProgressStep(es: seq<Entry>, n: nat, v: Texts, w: Texts, x: Texts, payload: bool, entries: bool)
    requires IsTree(Mapping(es), |v|) && n < |es| && Progress(es, n, v, w, payload, entries)
    requires forall key :: !EntryHas(es[n], key) ==> At(x, key) == At(w, key)
    requires EntryShielded(es[n], v, x, payload, entries)
    requires payload && At(v, es[n].key) == REFERENCE ==> Apart(es, n, x)
    ensures Progress(es, n + 1, v, x, payload, entries)
  {
    hide EntryShielded, IsTree, At, EntryHas, Apart;
    SameText(es[n], v, x, payload, entries);
    HasOwnKey(es);
    assert At(w, es[n].key) == At(v, es[n].key);
    forall j | 0 <= j < |es| && j != n
      ensures At(x, es[j].key) == At(w, es[j].key)
      ensures if j < n then EntryShielded(es[j], v, x, payload, entries) else EntrySame(es[j], v, x)
    {
      EntryApart(es, n, j, |v|);
      if j < n {
        EntryStillShielded(es[j], v, w, x, payload, entries);
      }
    }
    forall i | 0 <= i < n && payload && At(v, es[i].key) == REFERENCE ensures Apart(es, i, x) {
      StillApart(es, i, n, w, x);
    }
  }

  lemma HasOwnKey(es: seq<Entry>)
    ensures forall j :: 0 <= j < |es| ==> EntryHas(es[j], es[j].key)
  {
  }

  lemma StillApart(es: seq<Entry>, i: nat, n: nat, w: Texts, x: Texts)
    requires i < |es| && n < |es| && i != n && Apart(es, i, w)
    requires forall j :: 0 <= j < |es| && j != n ==> At(x, es[j].key) == At(w, es[j].key)
    requires Apart(es, n, x) || At(x, es[n].key) == At(w, es[n].key)
    ensures Apart(es, i, x)
  {
  }

  lemma EntryApart(es: seq<Entry>, i: nat, j: nat, n: nat)
    requires IsTree(Mapping(es), n) && i < |es| && j < |es| && i != j
    ensures forall key :: EntryHas(es[j], key) ==> !EntryHas(es[i], key)
  {
  }

  lemma ProgressEnds(es: seq<Entry>, v: Texts, w: Texts, payload: bool, entries: bool)
    requires IsTree(Mapping(es), |v|) && Progress(es, |es|, v, w, payload, entries)
    ensures Shielded(Mapping(es), v, w, payload, entries)
  {
    hide EntryShielded, NoClash, AllApart, InPayload, EntryInPayload, EntryHas;
    ClashFree(es, v, w, payload, entries);
    forall key | Has(Mapping(es), key)
      ensures At(w, key) != At(v, key) <==> InPayload(key, Mapping(es), v, payload, entries) && At(v, key) == REFERENCE
    {
      var i :| 0 <= i < |es| && EntryHas(es[i], key);
      InOwnEntry(es, i, key, v, |v|, payload, entries);
      OwnEntry(key, es[i], v, w, payload, entries);
    }
  }

  lemma InOwnEntry(es: seq<Entry>, i: nat, key: nat, v: Texts, n: nat, payload: bool, entries: bool)
    requires IsTree(Mapping(es), n) && i < |es| && EntryHas(es[i], key)
    ensures InPayload(key, Mapping(es), v, payload, entries) <==> EntryInPayload(key, es[i], v, payload, entries)
  {
    hide At;
    forall j | 0 <= j < |es| && EntryInPayload(key, es[j], v, payload, entries) ensures j == i {
      InOneEntry(key, es[j], v, payload, entries);
    }
  }

  lemma ClashFree(es: seq<Entry>, v: Texts, w: Texts, payload: bool, entries: bool)
    requires Progress(es, |es|, v, w, payload, entries)
    ensures NoClash(Mapping(es), v, w, payload, entries)
  {
  }

  lemma InOneEntry(key: nat, e: Entry, v: Texts, payload: bool, entries: bool)
    requires EntryInPayload(key, e, v, payload, entries)
    ensures EntryHas(e, key)
  {
    if !(payload && key == e.key) {
      PayloadKeys(key, e.value, v, Opens(payload, entries, At(v, e.key)), Catalogue(At(v, e.key)));
    }
  }

  lemma OwnEntry(key: nat, e: Entry, v: Texts, w: Texts, payload: bool, entries: bool)
    requires EntryHas(e, key) && !Has(e.value, e.key) && EntryShielded(e, v, w, payload, entries)
    ensures At(w, key) != At(v, key) <==> EntryInPayload(key, e, v, payload, entries) && At(v, key) == REFERENCE
  {
    if InPayload(e.key, e.value, v, Opens(payload, entries, At(v, e.key)), Catalogue(At(v, e.key))) {
      PayloadKeys(e.key, e.value, v, Opens(payload, entries, At(v, e.key)), Catalogue(At(v, e.key)));
    }
  }

  /** The first items are shielded, the others as before. */
  ghost predicate ItemProgress(items: seq<Tree>, n: nat, v: Texts, w: Texts, payload: bool) {
    forall j :: 0 <= j < |items| ==> if j < n then Shielded(items[j], v, w, payload, false) else Same(items[j], v, w)
  }

  lemma ItemStep(items: seq<Tree>, n: nat, v: Texts, w: Texts, x: Texts, payload: bool)
    requires IsTree(Sequence(items), |v|) && n < |items| && ItemProgress(items, n, v, w, payload)
    requires forall key :: !Has(items[n], key) ==> At(x, key) == At(w, key)
    requires Shielded(items[n], v, x, payload, false)
    ensures ItemProgress(items, n + 1, v, x, payload)
  {
    hide Shielded;
    forall j | 0 <= j < |items| && j != n
      ensures if j < n then Shielded(items[j], v, x, payload, false) else Same(items[j], v, x)
    {
      assert forall key :: Has(items[j], key) ==> !Has(items[n], key);
      if j < n {
        StillShielded(items[j], v, w, x, payload, false);
      }
    }
  }

  lemma ItemsEnd(items: seq<Tree>, v: Texts, w: Texts, payload: bool, entries: bool)
    requires IsTree(Sequence(items), |v|) && ItemProgress(items, |items|, v, w, payload)
    ensures Shielded(Sequence(items), v, w, payload, entries)
  {
    forall key | Has(Sequence(items), key)
      ensures At(w, key) != At(v, key) <==> InPayload(key, Sequence(items), v, payload, entries) && At(v, key) == REFERENCE
    {
      var i :| 0 <= i < |items| && Has(items[i], key);
      forall j | 0 <= j < |items| && InPayload(key, items[j], v, payload, false) ensures j == i {
        PayloadKeys(key, items[j], v, payload, false);
      }
    }
  }

  // ----- which keys were renamed

  ghost predicate Hides(key: nat, tree: Tree, v: Texts, payload: bool, entries: bool) {
    InPayload(key, tree, v, payload, entries) && At(v, key) == REFERENCE
  }

  ghost predicate EntryHides(key: nat, e: Entry, v: Texts, payload: bool, entries: bool) {
    EntryInPayload(key, e, v, payload, entries) && At(v, key) == REFERENCE
  }

  ghost predicate AddsHidden(before: seq<nat>, after: seq<nat>, tree: Tree, v: Texts, payload: bool, entries: bool) {
    forall key :: key in after <==> key in before || Hides(key, tree, v, payload, entries)
  }

  ghost predicate AddsItems(before: seq<nat>, after: seq<nat>, items: seq<Tree>, n: nat, v: Texts, payload: bool) {
    forall key :: key in after <==> key in before || exists i :: 0 <= i < n && i < |items| && Hides(key, items[i], v, payload, false)
  }

  ghost predicate AddsEntry(before: seq<nat>, after: seq<nat>, e: Entry, v: Texts, payload: bool, entries: bool) {
    forall key :: key in after <==> key in before || EntryHides(key, e, v, payload, entries)
  }

  ghost predicate AddsEntries(before: seq<nat>, after: seq<nat>, es: seq<Entry>, n: nat, v: Texts, payload: bool, entries: bool) {
    forall key :: key in after <==> key in before || exists i :: 0 <= i < n && i < |es| && EntryHides(key, es[i], v, payload, entries)
  }

  lemma AddsItemsStep(a: seq<nat>, b: seq<nat>, c: seq<nat>, items: seq<Tree>, n: nat, v: Texts, payload: bool)
    requires n < |items| && AddsItems(a, b, items, n, v, payload) && AddsHidden(b, c, items[n], v, payload, false)
    ensures AddsItems(a, c, items, n + 1, v, payload)
  {
    hide Hides;
  }

  lemma AddsItemsEnds(a: seq<nat>, b: seq<nat>, items: seq<Tree>, v: Texts, payload: bool, entries: bool)
    ensures AddsItems(a, a, items, 0, v, payload)
    ensures AddsItems(a, b, items, |items|, v, payload) ==> AddsHidden(a, b, Sequence(items), v, payload, entries)
  {
  }

  lemma AddsEntriesStep(a: seq<nat>, b: seq<nat>, c: seq<nat>, es: seq<Entry>, n: nat, v: Texts, payload: bool, entries: bool)
    requires n < |es| && AddsEntries(a, b, es, n, v, payload, entries) && AddsEntry(b, c, es[n], v, payload, entries)
    ensures AddsEntries(a, c, es, n + 1, v, payload, entries)
  {
    hide EntryHides;
  }

  lemma AddsEntriesEnds(a: seq<nat>, b: seq<nat>, es: seq<Entry>, v: Texts, payload: bool, entries: bool)
    ensures AddsEntries(a, a, es, 0, v, payload, entries)
    ensures AddsEntries(a, b, es, |es|, v, payload, entries) ==> AddsHidden(a, b, Mapping(es), v, payload, entries)
  {
  }

  // ----- a name no sibling has

  function DecimalDigits(n: nat): string {
    if n < 10 then ["0123456789"[n]] else DecimalDigits(n / 10) + ["0123456789"[n % 10]]
  }

  function Candidate(count: nat): string {
    "x-poolster-opaque-reference-" + DecimalDigits(count)
  }

  function Underscores(n: nat): string {
    if n == 0 then "" else Underscores(n - 1) + "_"
  }

  lemma NoUnderscores()
    ensures Underscores(0) == ""
  {
  }

  lemma MoreUnderscores(n: nat, text: string)
    ensures text + Underscores(n + 1) == text + Underscores(n) + "_"
  {
  }

  ghost predicate Taken(es: seq<Entry>, w: Texts, text: string) {
    exists i :: 0 <= i < |es| && At(w, es[i].key) == text
  }

  ghost function Longest(es: seq<Entry>, w: Texts): (n: nat)
    ensures forall text :: Taken(es, w, text) ==> |text| <= n
  {
    if es == [] then 0
    else
      var n, last := Longest(es[..|es| - 1], w), At(w, es[|es| - 1].key);
      assert forall text :: Taken(es, w, text) ==> text == last || Taken(es[..|es| - 1], w, text);
      if |last| > n then |last| else n
  }

  // ----- parts of a document

  lemma ItemsStart(items: seq<Tree>, v: Texts, w: Texts, payload: bool)
    requires Same(Sequence(items), v, w)
    ensures ItemProgress(items, 0, v, w, payload)
  {
  }

  lemma ItemPart(items: seq<Tree>, i: nat, v: Texts, w: Texts, payload: bool)
    requires IsTree(Sequence(items), |v|) && i < |items| && ItemProgress(items, i, v, w, payload)
    ensures IsTree(items[i], |v|) && Same(items[i], v, w)
    ensures forall key :: Has(items[i], key) ==> Has(Sequence(items), key)
  {
  }

  lemma EntriesStart(es: seq<Entry>, v: Texts, w: Texts, payload: bool, entries: bool)
    requires Same(Mapping(es), v, w)
    ensures Progress(es, 0, v, w, payload, entries)
  {
  }

  lemma EntryPart(es: seq<Entry>, i: nat, v: Texts, w: Texts, payload: bool, entries: bool)
    requires i < |es| && Progress(es, i, v, w, payload, entries)
    ensures EntrySame(es[i], v, w)
    ensures forall key :: EntryHas(es[i], key) ==> Has(Mapping(es), key)
  {
  }

  lemma KeyOutside(es: seq<Entry>, i: nat, n: nat)
    requires IsTree(Mapping(es), n) && i < |es|
    ensures IsTree(es[i].value, n)
    ensures forall j :: 0 <= j < |es| ==> es[j].key < n && !Has(es[i].value, es[j].key)
    ensures forall j :: 0 <= j < |es| && j != i ==> es[j].key != es[i].key
  {
    forall j | 0 <= j < |es| && j != i ensures !EntryHas(es[i], es[j].key) {
      EntryApart(es, i, j, n);
      assert EntryHas(es[j], es[j].key);
    }
  }

  /** Renaming a reference does not change how what is below it is read. */
  lemma ModesKept(before: string, after: string, payload: bool, entries: bool)
    requires after == before || (payload && before == REFERENCE && "x-" <= after)
    ensures Opens(payload, entries, after) == Opens(payload, entries, before) && Catalogue(after) == Catalogue(before)
    ensures after == before || after != before == REFERENCE
  {
    if after != before {
      assert after[0] == 'x';
    }
  }

  lemma CandidateStarts(count: nat, n: nat)
    ensures "x-" <= Candidate(count) + Underscores(n)
  {
  }

  lemma AddsOwn(before: seq<nat>, between: seq<nat>, after: seq<nat>, e: Entry, v: Texts, payload: bool, entries: bool)
    requires between == if payload && At(v, e.key) == REFERENCE then before + [e.key] else before
    requires AddsHidden(between, after, e.value, v, Opens(payload, entries, At(v, e.key)), Catalogue(At(v, e.key)))
    ensures AddsEntry(before, after, e, v, payload, entries)
  {
    hide InPayload, Opens, Catalogue;
  }

  // ----- hiding and restoring

  class Shield {
    const texts: array<string>
    var keys: seq<nat>

    constructor (texts: array<string>)
      ensures this.texts == texts && keys == []
    {
      this.texts := texts;
      keys := [];
    }

    /** The candidate with the fewest underscores that no key of the mapping has. */
    method FreshKey(es: seq<Entry>, count: nat) returns (candidate: string)
      requires forall i :: 0 <= i < |es| ==> es[i].key < texts.Length
      ensures !Taken(es, texts[..], candidate) && "x-" <= candidate
      ensures exists n: nat :: candidate == Candidate(count) + Underscores(n) && forall m: nat :: m < n ==> Taken(es, texts[..], Candidate(count) + Underscores(m))
    {
      hide Longest, Candidate, Underscores;
      candidate := Candidate(count);
      ghost var n, w := 0, texts[..];
      CandidateStarts(count, 0);
      NoUnderscores();
      while true
        invariant candidate == Candidate(count) + Underscores(n)
        invariant forall m: nat :: m < n ==> Taken(es, w, Candidate(count) + Underscores(m))
        decreases Longest(es, w) + 1 - |candidate|
      {
        var found := false;
        for j := 0 to |es|
          invariant !found && forall i :: 0 <= i < j ==> At(w, es[i].key) != candidate
        {
          if texts[es[j].key] == candidate {
            found := true;
            assert At(w, es[j].key) == candidate;
            break;
          }
        }
        CandidateStarts(count, n);
        if !found {
          break;
        }
        MoreUnderscores(n, Candidate(count));
        candidate := candidate + "_";
        n := n + 1;
      }
    }

    method Walk(tree: Tree, payload: bool, entries: bool, ghost v: Texts)
      requires IsTree(tree, |v|) && |v| == texts.Length && Same(tree, v, texts[..])
      modifies this, texts
      ensures Shielded(tree, v, texts[..], payload, entries)
      ensures forall key :: !Has(tree, key) ==> At(texts[..], key) == At(old(texts[..]), key)
      ensures AddsHidden(old(keys), keys, tree, v, payload, entries)
      decreases tree, 0
    {
      match tree
      case Scalar(_) =>
      case Sequence(items) => WalkItems(items, payload, entries, v);
      case Mapping(es) => WalkEntries(es, payload, entries, v);
    }

    method WalkItems(items: seq<Tree>, payload: bool, ghost entries: bool, ghost v: Texts)
      requires IsTree(Sequence(items), |v|) && |v| == texts.Length && Same(Sequence(items), v, texts[..])
      modifies this, texts
      ensures Shielded(Sequence(items), v, texts[..], payload, entries)
      ensures forall key :: !Has(Sequence(items), key) ==> At(texts[..], key) == At(old(texts[..]), key)
      ensures AddsHidden(old(keys), keys, Sequence(items), v, payload, entries)
      decreases items
    {
      hide Shielded, AddsHidden, AddsItems, IsTree, ItemProgress, Same, At, Has;
      ItemsStart(items, v, texts[..], payload);
      AddsItemsEnds(keys, keys, items, v, payload, entries);
      ghost var start, w, known := keys, texts[..], keys;
      for i := 0 to |items|
        invariant w == texts[..] && known == keys
        invariant ItemProgress(items, i, v, w, payload)
        invariant AddsItems(start, keys, items, i, v, payload)
        invariant forall key :: !Has(Sequence(items), key) ==> At(w, key) == At(old(texts[..]), key)
      {
        ItemPart(items, i, v, w, payload);
        Walk(items[i], payload, false, v);
        ItemStep(items, i, v, w, texts[..], payload);
        AddsItemsStep(start, known, keys, items, i, v, payload);
        w, known := texts[..], keys;
      }
      ItemsEnd(items, v, w, payload, entries);
      AddsItemsEnds(start, keys, items, v, payload, entries);
    }

    method WalkEntries(es: seq<Entry>, payload: bool, entries: bool, ghost v: Texts)
      requires IsTree(Mapping(es), |v|) && |v| == texts.Length && Same(Mapping(es), v, texts[..])
      modifies this, texts
      ensures Shielded(Mapping(es), v, texts[..], payload, entries)
      ensures forall key :: !Has(Mapping(es), key) ==> At(texts[..], key) == At(old(texts[..]), key)
      ensures AddsHidden(old(keys), keys, Mapping(es), v, payload, entries)
      decreases es
    {
      hide Shielded, AddsHidden, AddsEntry, AddsEntries, IsTree, Progress, Same, At, Has, EntryHas, EntryShielded, EntrySame, Opens, Catalogue, Apart, Hides, EntryHides;
      EntriesStart(es, v, texts[..], payload, entries);
      AddsEntriesEnds(keys, keys, es, v, payload, entries);
      ghost var start, w, known := keys, texts[..], keys;
      for i := 0 to |es|
        invariant w == texts[..] && known == keys
        invariant Progress(es, i, v, w, payload, entries)
        invariant AddsEntries(start, keys, es, i, v, payload, entries)
        invariant forall key :: !Has(Mapping(es), key) ==> At(w, key) == At(old(texts[..]), key)
      {
        EntryPart(es, i, v, w, payload, entries);
        WalkEntry(es, i, payload, entries, v);
        ProgressStep(es, i, v, w, texts[..], payload, entries);
        AddsEntriesStep(start, known, keys, es, i, v, payload, entries);
        w, known := texts[..], keys;
      }
      ProgressEnds(es, v, w, payload, entries);
      AddsEntriesEnds(start, keys, es, v, payload, entries);
    }

    method WalkEntry(es: seq<Entry>, i: nat, payload: bool, entries: bool, ghost v: Texts)
      requires IsTree(Mapping(es), |v|) && |v| == texts.Length && i < |es| && EntrySame(es[i], v, texts[..])
      modifies this, texts
      ensures EntryShielded(es[i], v, texts[..], payload, entries)
      ensures payload && At(v, es[i].key) == REFERENCE ==> Apart(es, i, texts[..])
      ensures forall key :: !EntryHas(es[i], key) ==> At(texts[..], key) == At(old(texts[..]), key)
      ensures AddsEntry(old(keys), keys, es[i], v, payload, entries)
      decreases es[i].value, 1
    {
      hide Shielded, AddsHidden, AddsEntry, IsTree, Has, InPayload, Opens, Catalogue;
      KeyOutside(es, i, |v|);
      ghost var before := keys;
      var key := es[i].key;
      if payload && texts[key] == REFERENCE {
        var candidate := FreshKey(es, |keys|);
        texts[key] := candidate;
        keys := keys + [key];
      }
      ghost var between, known := texts[..], keys;
      ModesKept(v[key], texts[key], payload, entries);
      Walk(es[i].value, Opens(payload, entries, texts[key]), Catalogue(texts[key]), v);
      AddsOwn(before, known, keys, es[i], v, payload, entries);
    }

    /** The renamed keys are references again: the document is what it was before. */
    method Restore(tree: Tree, ghost v: Texts)
      requires IsTree(tree, |v|) && |v| == texts.Length && Shielded(tree, v, texts[..], false, false)
      requires forall key :: !Has(tree, key) ==> At(texts[..], key) == At(v, key)
      requires AddsHidden([], keys, tree, v, false, false)
      modifies texts
      ensures texts[..] == v
    {
      hide IsTree, NoClash, Has;
      KeysAreCells(tree, |v|, v, keys);
      ghost var w := texts[..];
      for i := 0 to |keys|
        invariant forall key :: At(texts[..], key) == if key in keys[..i] then REFERENCE else At(w, key)
      {
        assert keys[i] in keys;
        texts[keys[i]] := REFERENCE;
      }
      forall key: nat | key < |v| ensures texts[key] == v[key] {
        assert texts[key] == At(texts[..], key) && v[key] == At(v, key);
      }
    }
  }

  /** Hides the references in the payloads of a document. In the document as it is read
      afterwards no payload has a reference, and no other key has changed. */
  method HideReferences(tree: Tree, texts: array<string>) returns (shield: Shield)
    requires IsTree(tree, texts.Length)
    modifies texts
    ensures fresh(shield) && shield.texts == texts
    ensures Shielded(tree, old(texts[..]), texts[..], false, false)
    ensures AddsHidden([], shield.keys, tree, old(texts[..]), false, false)
    ensures forall key :: InPayload(key, tree, texts[..], false, false) ==> At(texts[..], key) != REFERENCE
    ensures forall key :: !InPayload(key, tree, old(texts[..]), false, false) ==> At(texts[..], key) == At(old(texts[..]), key)
  {
    hide IsTree, Shielded, InPayload, AddsHidden, Has;
    shield := new Shield(texts);
    ghost var v := texts[..];
    shield.Walk(tree, false, false, v);
    NoReferenceLeft(tree, v, texts[..]);
  }

  /** Below an extension key everything is payload. */
  lemma {:induction false} AllPayload(key: nat, tree: Tree, v: Texts, entries: bool)
    ensures InPayload(key, tree, v, true, entries) <==> Has(tree, key)
    decreases tree
  {
    match tree
    case Scalar(_) =>
    case Sequence(items) =>
      forall i | 0 <= i < |items| ensures InPayload(key, items[i], v, true, false) <==> Has(items[i], key) {
        AllPayload(key, items[i], v, false);
      }
    case Mapping(es) =>
      forall i | 0 <= i < |es| ensures EntryInPayload(key, es[i], v, true, entries) <==> EntryHas(es[i], key) {
        AllPayload(key, es[i].value, v, Catalogue(At(v, es[i].key)));
      }
  }

  /** Shielding does not change what is payload. */
  lemma {:induction false} SamePayload(key: nat, tree: Tree, v: Texts, w: Texts, n: nat, payload: bool, entries: bool)
    requires IsTree(tree, n) && Hidden(tree, v, w, payload, entries)
    ensures InPayload(key, tree, w, payload, entries) <==> InPayload(key, tree, v, payload, entries)
    decreases tree
  {
    if payload {
      AllPayload(key, tree, v, entries);
      AllPayload(key, tree, w, entries);
    } else {
      match tree
      case Scalar(_) =>
      case Sequence(items) =>
        forall i | 0 <= i < |items| ensures InPayload(key, items[i], w, false, false) <==> InPayload(key, items[i], v, false, false) {
          ItemHidden(items, i, v, w, n, entries);
          SamePayload(key, items[i], v, w, n, false, false);
        }
      case Mapping(es) =>
        forall i | 0 <= i < |es| ensures EntryInPayload(key, es[i], w, false, entries) <==> EntryInPayload(key, es[i], v, false, entries) {
          var e := es[i];
          PartHidden(es, i, v, w, n, entries);
          SamePayload(key, e.value, v, w, n, Opens(false, entries, At(v, e.key)), Catalogue(At(v, e.key)));
        }
    }
  }

  lemma ItemHidden(items: seq<Tree>, i: nat, v: Texts, w: Texts, n: nat, entries: bool)
    requires IsTree(Sequence(items), n) && i < |items| && Hidden(Sequence(items), v, w, false, entries)
    ensures Hidden(items[i], v, w, false, false)
  {
    hide At;
    forall key | Has(items[i], key)
      ensures Has(Sequence(items), key)
      ensures InPayload(key, Sequence(items), v, false, entries) <==> InPayload(key, items[i], v, false, false)
    {
      forall j | 0 <= j < |items| && InPayload(key, items[j], v, false, false) ensures j == i {
        PayloadKeys(key, items[j], v, false, false);
      }
    }
  }

  lemma PartHidden(es: seq<Entry>, i: nat, v: Texts, w: Texts, n: nat, entries: bool)
    requires IsTree(Mapping(es), n) && i < |es| && Hidden(Mapping(es), v, w, false, entries)
    ensures At(w, es[i].key) == At(v, es[i].key)
    ensures Hidden(es[i].value, v, w, Opens(false, entries, At(v, es[i].key)), Catalogue(At(v, es[i].key)))
  {
    hide InPayload;
    var e := es[i];
    forall key | EntryHas(e, key)
      ensures Has(Mapping(es), key)
      ensures InPayload(key, Mapping(es), v, false, entries) <==> EntryInPayload(key, e, v, false, entries)
    {
      InOwnEntry(es, i, key, v, n, false, entries);
    }
    assert EntryHas(e, e.key) && !Has(e.value, e.key);
    if InPayload(e.key, e.value, v, Opens(false, entries, At(v, e.key)), Catalogue(At(v, e.key))) {
      PayloadKeys(e.key, e.value, v, Opens(false, entries, At(v, e.key)), Catalogue(At(v, e.key)));
    }
    assert forall key :: Has(e.value, key) ==> EntryHas(e, key);
  }

  lemma NoReferenceLeft(tree: Tree, v: Texts, w: Texts)
    requires IsTree(tree, |v|) && Shielded(tree, v, w, false, false)
    requires forall key :: !Has(tree, key) ==> At(w, key) == At(v, key)
    ensures forall key :: InPayload(key, tree, w, false, false) ==> At(w, key) != REFERENCE
    ensures forall key :: !InPayload(key, tree, v, false, false) ==> At(w, key) == At(v, key)
  {
    forall key | InPayload(key, tree, w, false, false) ensures At(w, key) != REFERENCE {
      SamePayload(key, tree, v, w, |v|, false, false);
      PayloadKeys(key, tree, w, false, false);
    }
  }

  lemma KeysAreCells(tree: Tree, n: nat, v: Texts, keys: seq<nat>)
    requires IsTree(tree, n) && AddsHidden([], keys, tree, v, false, false)
    ensures forall key :: key in keys ==> key < n && Has(tree, key)
  {
    forall key | key in keys ensures key < n && Has(tree, key) {
      PayloadKeys(key, tree, v, false, false);
      KeysFit(tree, n, key);
    }
  }
}
